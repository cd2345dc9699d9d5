/**
 What the configuration application does for its user, over runs: who may update, the way back
 with Esc, booting the option that was typed, and updating over USB and the serial port.
 */
module ConfRuns {
  import opened Bytes
  import opened VarList
  import opened BootMenu
  import opened SerialInput
  import opened ConfApp

  // ------------------------------------------------------------------ who may update

  /** Turn i asked for the mode, was told that it is not manufacturing, and the page has not been left since. */
  ghost predicate RefusedAt(es: seq<Env>, i: nat) {
    && i < |es| && Refused(Run(START, es[..i]), es[i])
    && forall k :: i < k < |es| ==> !Leaves(Run(START, es[..k]))
  }

  /** Some mode query since the setup page was entered was answered with "not manufacturing". */
  ghost predicate RefusedSinceEntry(es: seq<Env>) {
    exists i: nat :: RefusedAt(es, i)
  }

  lemma RefusedGrows(es: seq<Env>, e: Env)
    requires RefusedSinceEntry(es) && !Leaves(Run(START, es))
    ensures RefusedSinceEntry(es + [e])
  {
    hide Run, Refused, Leaves;
    var i: nat :| RefusedAt(es, i);
    var all := es + [e];
    assert all[..i] == es[..i] && all[..|es|] == es;
    assert forall k :: 0 <= k <= |es| ==> all[..k] == es[..k];
    assert RefusedAt(all, i);
  }

  lemma RefusedNow(es: seq<Env>, e: Env)
    requires Refused(Run(START, es), e)
    ensures RefusedSinceEntry(es + [e])
  {
    hide Run, Refused, Leaves;
    assert (es + [e])[..|es|] == es;
    assert RefusedAt(es + [e], |es|);
  }

  /** One turn of an unlocked page that is neither refused nor left. */
  lemma StaysOpen(a: App, e: Env)
    requires Inv(a) && Step(a, e).main == SETUP_CONF && !Refused(a, e)
    requires a.main == SETUP_CONF ==> a.setup.usbEnd == UPDATE_USB && a.setup.serialEnd == UPDATE_SERIAL_HINT
    ensures Step(a, e).setup.usbEnd == UPDATE_USB && Step(a, e).setup.serialEnd == UPDATE_SERIAL_HINT
  {
    hide FirstMatch, Stored;
  }

  lemma LeavingIsMainInit(a: App, e: Env)
    requires Leaves(a)
    ensures Step(a, e).main == MAIN_INIT
  {}

  /** Until a query is refused, the two update options lead where their texts say. */
  lemma {:induction false} OpenOptions(es: seq<Env>)
    requires Run(START, es).main == SETUP_CONF && !RefusedSinceEntry(es)
    ensures Run(START, es).setup.usbEnd == UPDATE_USB && Run(START, es).setup.serialEnd == UPDATE_SERIAL_HINT
    decreases |es|
  {
    hide Step, Refused, Leaves, Inv, RefusedSinceEntry;
    if es != [] {
      var front, e := es[..|es| - 1], es[|es| - 1];
      assert es == front + [e];
      var a := Run(START, front);
      RunOk(front);
      if Refused(a, e) {
        RefusedNow(front, e);
      }
      if Leaves(a) {
        LeavingIsMainInit(a, e);
      } else if RefusedSinceEntry(front) {
        RefusedGrows(front, e);
      }
      if a.main == SETUP_CONF {
        OpenOptions(front);
      }
      StaysOpen(a, e);
    }
  }

  lemma ClosedOptions(es: seq<Env>)
    requires RefusedSinceEntry(es)
    ensures Locked(Run(START, es))
  {
    hide Run, Locked, Refused, Leaves;
    var i: nat :| RefusedAt(es, i);
    NoUpdateAfterRefusal(es, i, |es|);
    assert es[..|es|] == es;
  }

  /** What the keys 1 and 2 choose from the options of the setup page. */
  lemma FirstTwoOptions(usbEnd: nat, serialEnd: nat, state: nat)
    requires usbEnd != MAX_UINT32 && serialEnd != MAX_UINT32
    ensures NextState(Key('1' as int, 0), SetupOptions(usbEnd, serialEnd), state) == usbEnd
    ensures NextState(Key('2' as int, 0), SetupOptions(usbEnd, serialEnd), state) == serialEnd
  {
    var o, key := SetupOptions(usbEnd, serialEnd), Key('2' as int, 0);
    assert o[1..][0] == o[1] && FirstMatch(key, o[1..]) == Some(serialEnd);
    assert FirstMatch(key, o) == FirstMatch(key, o[1..]);
  }

  /**
   Over every run: in the wait state of the setup page, key 1 starts an update from USB and
   key 2 one over the serial port if and only if every mode query since the page was entered
   was answered with "manufacturing"; otherwise both lead to the error state.
   */
  lemma UpdateIff(es: seq<Env>, e: Env)
    requires var a := Run(START, es); a.power.On? && a.main == SETUP_CONF && a.setup.state == SETUP_WAIT
    requires e.poll == Pressed(Key('1' as int, 0)) || e.poll == Pressed(Key('2' as int, 0))
    ensures var started := if e.poll.key.unicode == '1' as int then UPDATE_USB else UPDATE_SERIAL_HINT;
            Step(Run(START, es), e)
              == Run(START, es).(setup := Run(START, es).setup.(state :=
                   if RefusedSinceEntry(es) then SETUP_ERROR else started))
  {
    hide Run, RefusedSinceEntry, NextState, SetupOptions;
    var a := Run(START, es);
    if RefusedSinceEntry(es) {
      ClosedOptions(es);
    } else {
      OpenOptions(es);
    }
    FirstTwoOptions(a.setup.usbEnd, a.setup.serialEnd, a.setup.state);
  }

  // --------------------------------------------------------------- what each key does

  /** The main menu on a keystroke. */
  function MainChoice(k: Key): nat {
    if k == Key(CHAR_NULL, SCAN_ESC) then MAIN_EXIT
    else if k.scan != 0 then MAIN_WAIT
    else if k.unicode == '1' as int then SYSTEM_INFO
    else if k.unicode == '2' as int then BOOT_OPTION
    else if k.unicode == '3' as int then SETUP_CONF
    else if k.unicode == 'h' as int then MAIN_INIT
    else MAIN_WAIT
  }

  /** The setup menu on a keystroke. */
  function SetupChoice(k: Key, refused: bool): nat {
    if k == Key(CHAR_NULL, SCAN_ESC) then SETUP_EXIT
    else if k.scan != 0 then SETUP_WAIT
    else if k.unicode == '1' as int then if refused then SETUP_ERROR else UPDATE_USB
    else if k.unicode == '2' as int then if refused then SETUP_ERROR else UPDATE_SERIAL_HINT
    else if k.unicode == '3' as int then DUMP_SERIAL
    else if k.unicode == 'h' as int then SETUP_INIT
    else SETUP_WAIT
  }

  /** Every key does at the main menu what the menu says, and no other key does anything. */
  lemma MainKeysExact(a: App, e: Env)
    requires a.power.On? && a.main == MAIN_WAIT && e.poll.Pressed?
    ensures Step(a, e) == a.(main := MainChoice(e.poll.key))
  {
    var k, o := e.poll.key, MAIN_OPTIONS;
    assert o[1..][0] == o[1] && o[2..][0] == o[2] && o[3..][0] == o[3] && o[4..][0] == o[4];
    assert o[1..][1..] == o[2..] && o[2..][1..] == o[3..] && o[3..][1..] == o[4..] && o[4..][1..] == [];
    assert FirstMatch(k, []) == None;
    SearchStep(k, o[4..]);
    SearchStep(k, o[3..]);
    SearchStep(k, o[2..]);
    SearchStep(k, o[1..]);
    SearchStep(k, o);
  }

  /** Only Esc leaves the system information page. */
  lemma SysKeysExact(a: App, e: Env)
    requires a.power.On? && a.main == SYSTEM_INFO && a.sys == SYS_WAIT && e.poll.Pressed?
    ensures Step(a, e) == if e.poll.key == Key(0, 0x17) then a.(sys := SYS_EXIT) else a
  {
    SearchStep(e.poll.key, SYS_OPTIONS);
    NoOptions(e.poll.key);
    assert SYS_OPTIONS[1..] == [];
  }

  lemma SearchStep(k: Key, options: seq<KeyOption>)
    requires options != []
    ensures var o := options[0];
            FirstMatch(k, options)
              == if (o.unicode != CHAR_NULL || o.scan != 0) && o.endState != MAX_UINT32
                    && o.unicode == k.unicode && o.scan == k.scan
                 then Some(o.endState) else FirstMatch(k, options[1..])
  {}

  lemma SetupSearch(k: Key, usbEnd: nat, serialEnd: nat)
    requires usbEnd != MAX_UINT32 && serialEnd != MAX_UINT32
    ensures NextState(k, SetupOptions(usbEnd, serialEnd), SETUP_WAIT)
         == if k == Key('1' as int, 0) then usbEnd else if k == Key('2' as int, 0) then serialEnd
            else SetupChoice(k, false)
  {
    hide FirstMatch;
    var o := SetupOptions(usbEnd, serialEnd);
    assert o[1..][0] == o[1] && o[2..][0] == o[2] && o[3..][0] == o[3] && o[4..][0] == o[4] && o[5..][0] == o[5];
    assert o[1..][1..] == o[2..] && o[2..][1..] == o[3..] && o[3..][1..] == o[4..] && o[4..][1..] == o[5..];
    assert o[5..][1..] == [];
    NoOptions(k);
    SearchStep(k, o[5..]);
    SearchStep(k, o[4..]);
    SearchStep(k, o[3..]);
    SearchStep(k, o[2..]);
    SearchStep(k, o[1..]);
    SearchStep(k, o);
  }

  lemma NoOptions(k: Key)
    ensures FirstMatch(k, []) == None
  {}

  /** Over every run the setup menu does on each key what it says, the updates only while not refused. */
  lemma SetupKeysExact(es: seq<Env>, e: Env)
    requires var a := Run(START, es); a.power.On? && a.main == SETUP_CONF && a.setup.state == SETUP_WAIT
    requires e.poll.Pressed?
    ensures var a := Run(START, es);
            Step(a, e) == a.(setup := a.setup.(state := SetupChoice(e.poll.key, RefusedSinceEntry(es))))
  {
    hide Run, RefusedSinceEntry, NextState, SetupOptions;
    var a := Run(START, es);
    if RefusedSinceEntry(es) {
      ClosedOptions(es);
    } else {
      OpenOptions(es);
    }
    SetupSearch(e.poll.key, a.setup.usbEnd, a.setup.serialEnd);
  }

  // ------------------------------------------------------------ when it writes or resets

  /** Received settings are applied in this turn. */
  predicate Applies(a: App, e: Env) {
    && a.power.On? && a.main == SETUP_CONF
    && if a.setup.state == UPDATE_USB then e.usb == ApplyFailed || e.usb == Applied
       else
         && (a.setup.state == UPDATE_SERIAL_HINT || a.setup.state == UPDATE_SERIAL)
         && e.poll.Pressed? && e.poll.key.scan != SCAN_ESC && Terminator(e.poll.key.unicode) && e.serial != NotAscii
  }

  /** Variables are written exactly in the turns that apply received settings. */
  lemma WritesExact(a: App, e: Env)
    requires Inv(a)
    ensures Step(a, e).writes == a.writes + if Applies(a, e) && e.wrote then 1 else 0
  {
    hide FirstMatch, GoodInput, Stored, Selection;
  }

  /** A poll answers with something a waiting page does not expect. */
  predicate Fails(p: Poll) {
    p == TimedOut || p == DeviceError
  }

  predicate Resets(a: App, e: Env) {
    if a.main == MAIN_WAIT then Fails(e.poll)
    else if a.main == MAIN_EXIT then
      e.poll.Pressed? ==> e.poll.key.unicode == 'y' as int || e.poll.key.unicode == 'Y' as int
    else if a.main == SYSTEM_INFO then
      if a.sys == SYS_INIT then !e.printed
      else a.sys == SYS_WAIT && (e.poll == NotReady || e.poll == DeviceError || (e.poll == TimedOut && !e.dated))
    else if a.main == BOOT_OPTION then a.boot.state == BOOT_WAIT && Fails(e.poll)
    else
      && a.main == SETUP_CONF
      && if a.setup.state == SETUP_WAIT || a.setup.state == DUMP_COMPLETE then !e.poll.Pressed?
         else if a.setup.state == UPDATE_USB then e.usb != FileNotFound
         else
           && (a.setup.state == UPDATE_SERIAL_HINT || a.setup.state == UPDATE_SERIAL)
           && if !e.poll.Pressed? then Fails(e.poll)
              else e.poll.key.scan != SCAN_ESC && Terminator(e.poll.key.unicode) && e.serial != NoMapping
  }

  /** In every reachable state: when a turn resets the system. */
  lemma ResetsIff(a: App, e: Env)
    requires Inv(a) && a.power.On?
    ensures Step(a, e).power == Resetting <==> Resets(a, e)
  {
    hide FirstMatch, GoodInput, Stored, Selection;
  }

  /** A dump returns to the setup menu, which asks for the mode again; a failed inspection repeats it. */
  lemma DumpReturns(a: App, e: Env, esc: Env)
    requires Inv(a) && a.power.On? && a.main == SETUP_CONF && a.setup.state == DUMP_SERIAL
    requires esc.poll == Pressed(Key(CHAR_NULL, SCAN_ESC))
    ensures if e.dump == InspectionFailed then Step(a, e) == a
            else Step(Step(a, e), esc) == a.(setup := a.setup.(state := SETUP_INIT))
  {
    hide GoodInput;
  }

  // ------------------------------------------------------------------- runs, in pieces

  lemma {:induction false} RunAppend(a: App, xs: seq<Env>, ys: seq<Env>)
    ensures Run(a, xs + ys) == Run(Run(a, xs), ys)
    decreases |ys|
  {
    hide Step;
    if ys == [] {
      assert xs + ys == xs;
    } else {
      var all, n := xs + ys, |ys| - 1;
      assert all[..|all| - 1] == xs + ys[..n] && all[|all| - 1] == ys[n];
      RunAppend(a, xs, ys[..n]);
    }
  }

  lemma RunOne(a: App, e: Env)
    ensures Run(a, [e]) == Step(a, e) && Run(a, []) == a
  {
    hide Step;
    assert [e][..0] == [];
  }

  lemma RunFirst(a: App, e: Env, es: seq<Env>)
    ensures Run(a, [e] + es) == Run(Step(a, e), es)
  {
    hide Step, Run;
    RunAppend(a, [e], es);
    RunOne(a, e);
  }

  /** A turn in which a key is pressed and every service that is called answers as usual. */
  function Pressing(c: Char16, scan: Char16): Env {
    Env(Pressed(Key(c, scan)), true, 0, true, true, FileNotFound, NoMapping, false, Dumped)
  }

  // -------------------------------------------------------------------- the way back

  /** How many times Esc is pressed until the main menu waits again. */
  function EscRank(a: App): nat {
    if a.main == MAIN_WAIT then 0
    else if a.main == MAIN_INIT then 1
    else if a.main == MAIN_EXIT then 2
    else if a.main == SYSTEM_INFO then if a.sys == SYS_EXIT then 2 else if a.sys == SYS_WAIT then 3 else 4
    else if a.main == BOOT_OPTION then
      if a.boot.state == BOOT_EXIT then 2 else if a.boot.state == BOOT_WAIT then 3 else 4
    else if a.setup.state == SETUP_EXIT then 2
    else if a.setup.state in {SETUP_WAIT, UPDATE_SERIAL_HINT, UPDATE_SERIAL} then 3
    else if a.setup.state in {SETUP_INIT, SETUP_ERROR, UPDATE_USB} then 4
    else if a.setup.state == DUMP_COMPLETE then 5
    else 6
  }

  lemma EscChoices(state: nat, usbEnd: nat, serialEnd: nat)
    ensures NextState(Key(0, SCAN_ESC), SetupOptions(usbEnd, serialEnd), state) == SETUP_EXIT
    ensures NextState(Key(0, SCAN_ESC), SYS_OPTIONS, state) == SYS_EXIT
  {
    var o := SetupOptions(usbEnd, serialEnd);
    var key := Key(0, SCAN_ESC);
    assert FirstMatch(key, o[4..]) == Some(SETUP_EXIT);
    assert o[3..][1..] == o[4..] && FirstMatch(key, o[3..]) == FirstMatch(key, o[4..]);
    assert o[2..][1..] == o[3..] && FirstMatch(key, o[2..]) == FirstMatch(key, o[3..]);
    assert o[1..][1..] == o[2..] && FirstMatch(key, o[1..]) == FirstMatch(key, o[2..]);
  }

  lemma EscStep(a: App)
    requires Inv(a) && a.power.On? && a.boot.state != BOOT_NOW && a.main != MAIN_WAIT
    ensures var b := Step(a, Pressing(0, SCAN_ESC));
            && b.power.On? && b.boot.state != BOOT_NOW && b.writes == a.writes && EscRank(b) + 1 == EscRank(a)
  {
    hide NextState, SetupOptions, GoodInput;
    EscChoices(a.setup.state, a.setup.usbEnd, a.setup.serialEnd);
    EscChoices(a.sys, 0, 0);
  }

  /**
   From every state with power that is not about to boot, pressing Esc a few times (with no
   settings file on the USB drive) ends at the main menu, with every page cleared and nothing
   written.
   */
  lemma {:induction false} EscReturns(a: App)
    requires Inv(a) && a.power.On? && a.boot.state != BOOT_NOW
    ensures EscRank(a) <= 6
    ensures var b := Run(a, seq(EscRank(a), _ => Pressing(0, SCAN_ESC)));
            b == START.(main := MAIN_WAIT, writes := a.writes)
    decreases EscRank(a)
  {
    hide Step;
    var e, n := Pressing(0, SCAN_ESC), EscRank(a);
    if a.main == MAIN_WAIT {
      assert seq(n, _ => e) == [];
    } else {
      EscStep(a);
      StepOk(a, e);
      EscReturns(Step(a, e));
      assert seq(n, _ => e) == [e] + seq(n - 1, _ => e);
      RunFirst(a, e, seq(n - 1, _ => e));
    }
  }

  // --------------------------------------------------------------- booting what is typed

  function PressAll(keys: seq<Key>): seq<Env> {
    seq(|keys|, i requires 0 <= i < |keys| => Pressing(keys[i].unicode, keys[i].scan))
  }

  /** Keys pressed on the boot page, up to the last one, are one visit to it. */
  lemma {:induction false} VisitRun(a: App, keys: seq<Key>)
    requires a.power.On? && a.main == BOOT_OPTION && a.boot.state == BOOT_WAIT
    requires forall n :: 0 <= n < |keys| ==> Visit(a.boot, keys[..n]).state == BOOT_WAIT
    ensures Run(a, PressAll(keys)) == a.(boot := Visit(a.boot, keys))
    decreases |keys|
  {
    hide PressKey, Visit;
    if keys == [] {
      VisitNone(a.boot);
      assert PressAll(keys) == [];
    } else {
      var n := |keys| - 1;
      forall k | 0 <= k < n ensures Visit(a.boot, keys[..n][..k]).state == BOOT_WAIT {
        assert keys[..n][..k] == keys[..k];
      }
      VisitRun(a, keys[..n]);
      VisitLast(a.boot, keys);
      var all := PressAll(keys);
      assert all[..n] == PressAll(keys[..n]) && all[n].poll == Pressed(keys[n]);
    }
  }

  lemma VisitNone(p: BootPage)
    ensures Visit(p, []) == p
  {}

  /** The services of the boot page list n options. */
  function Listing(n: nat): Env {
    Pressing(0, 0).(bootOptions := n)
  }

  lemma MainKeys(state: nat)
    ensures NextState(Key('2' as int, 0), MAIN_OPTIONS, state) == BOOT_OPTION
    ensures NextState(Key('3' as int, 0), MAIN_OPTIONS, state) == SETUP_CONF
  {
    var o := MAIN_OPTIONS;
    var two, three := Key('2' as int, 0), Key('3' as int, 0);
    assert o[1..][1..] == o[2..] && o[1..][0] == o[1] && o[2..][0] == o[2];
    assert FirstMatch(two, o[1..]) == Some(BOOT_OPTION) && FirstMatch(two, o) == FirstMatch(two, o[1..]);
    assert FirstMatch(three, o[2..]) == Some(SETUP_CONF);
    assert FirstMatch(three, o[1..]) == FirstMatch(three, o[2..]) && FirstMatch(three, o) == FirstMatch(three, o[1..]);
  }

  /**
   From the main menu: 2, the printed key name of option i, Enter, and the next turn boots
   option i, whichever of up to 65536 options it is.
   */
  lemma BootsTyped(a: App, i: nat, n: nat, e: Env)
    requires Inv(a) && a.power.On? && a.main == MAIN_WAIT && i < n <= 0x1_0000
    ensures var enter := [Pressing(BootMenu.CHAR_CARRIAGE_RETURN, 0)];
            var run := [Pressing('2' as int, 0), Listing(n)] + PressAll(Typed(KeyName(i))) + enter + [e];
            Run(a, run).power == Booting(i)
  {
    hide Run, KeyName, PressKey, NextState, Visit, SetupOk;
    var name := KeyName(i);
    var open, enter := Pressing('2' as int, 0), Pressing(BootMenu.CHAR_CARRIAGE_RETURN, 0);
    var keys := Typed(name) + [Key(BootMenu.CHAR_CARRIAGE_RETURN, 0)];
    MainKeys(a.main);
    var b := Step(a, open);
    var c := Step(b, Listing(n));
    TypingWaits(c.boot, i);
    TypedBoots(c.boot, i);
    VisitRun(c, keys);
    var d := Run(c, PressAll(keys));
    assert PressAll(keys) == PressAll(Typed(name)) + [enter];
    var run := [open, Listing(n)] + PressAll(Typed(name)) + [enter] + [e];
    assert run == [open] + ([Listing(n)] + (PressAll(keys) + [e]));
    RunFirst(a, open, [Listing(n)] + (PressAll(keys) + [e]));
    RunFirst(b, Listing(n), PressAll(keys) + [e]);
    RunAppend(c, PressAll(keys), [e]);
    RunOne(d, e);
  }

  // --------------------------------------------------------------------- updating

  /** From the main menu to the wait state of the setup page. */
  lemma OpensSetup(a: App, manufacturing: bool)
    requires Inv(a) && a.power.On? && a.main == MAIN_WAIT
    ensures var b := Run(a, [Pressing('3' as int, 0), Pressing(0, 0).(manufacturing := manufacturing)]);
            b == a.(main := SETUP_CONF, setup := SetupPrinted(SETUP_CLEARED, manufacturing))
  {
    hide Run, NextState, GoodInput;
    var x, y := Pressing('3' as int, 0), Pressing(0, 0).(manufacturing := manufacturing);
    MainKeys(a.main);
    RunFirst(a, x, [y]);
    assert [x] + [y] == [x, y];
    RunOne(Step(a, x), y);
  }

  /** A settings file on the USB drive that is applied: keys 3 and 1 write it and reset the system. */
  lemma UpdatesByUsb(a: App, e: Env)
    requires Inv(a) && a.power.On? && a.main == MAIN_WAIT && e.usb == Applied && e.wrote
    ensures var b := Run(a, [Pressing('3' as int, 0), Pressing(0, 0), Pressing('1' as int, 0), e]);
            b.power == Resetting && b.writes == a.writes + 1
  {
    hide Run, NextState, SetupOptions, GoodInput, Inv;
    OpensSetup(a, true);
    var x, y, z := Pressing('3' as int, 0), Pressing(0, 0), Pressing('1' as int, 0);
    var b := Run(a, [x, y]);
    assert [x, y, z, e] == [x, y] + ([z] + [e]);
    RunAppend(a, [x, y], [z] + [e]);
    RunFirst(b, z, [e]);
    RunOne(Step(b, z), e);
    FirstTwoOptions(b.setup.usbEnd, b.setup.serialEnd, b.setup.state);
  }

  predicate Listens(a: App) {
    a.power.On? && a.main == SETUP_CONF && (a.setup.state == UPDATE_SERIAL_HINT || a.setup.state == UPDATE_SERIAL)
  }

  function Receiving(chars: seq<Char16>): seq<Env> {
    seq(|chars|, i requires 0 <= i < |chars| => Pressing(chars[i], 0))
  }

  /** While no payload parses, the buffer of the page is the intake of the characters received. */
  lemma {:induction false} SerialRun(a: App, chars: seq<Char16>)
    requires Listens(a)
    ensures var b := Run(a, Receiving(chars));
            && Listens(b) && b.writes == a.writes
            && b.setup.received == TakeAll(Intake([], a.setup.received), chars).received
    decreases |chars|
  {
    hide Stored, Terminator;
    if chars == [] {
      assert Receiving(chars) == [];
    } else {
      var n := |chars| - 1;
      SerialRun(a, chars[..n]);
      var all := Receiving(chars);
      assert all[..n] == Receiving(chars[..n]) && all[n] == Pressing(chars[n], 0);
    }
  }

  /**
   Keys 3 and 2, any characters, and a terminator after text that is applied: the payload is
   the text after the last terminator before, it is written, and the system is reset.
   */
  lemma UpdatesBySerial(a: App, chars: seq<Char16>, e: Env)
    requires Inv(a) && a.power.On? && a.main == MAIN_WAIT
    requires e.poll == Pressed(Key(SerialInput.CHAR_CARRIAGE_RETURN, 0)) && e.serial == SettingsApplied && e.wrote
    ensures var menu := [Pressing('3' as int, 0), Pressing(0, 0), Pressing('2' as int, 0)];
            var b := Run(a, menu + Receiving(chars) + [e]);
            b.power == Resetting && b.writes == a.writes + 1 && b.setup.received == Some(Cut(chars).1 + [0])
  {
    hide Run, NextState, SetupOptions, GoodInput, Inv, TakeAll, Cut;
    OpensSetup(a, true);
    var x, y, z := Pressing('3' as int, 0), Pressing(0, 0), Pressing('2' as int, 0);
    var b := Run(a, [x, y]);
    FirstTwoOptions(b.setup.usbEnd, b.setup.serialEnd, b.setup.state);
    var c := Step(b, z);
    ClearedReceives(a);
    SerialRun(c, chars);
    IntakeIsCut(chars);
    var d := Run(c, Receiving(chars));
    assert [x, y, z] + Receiving(chars) + [e] == [x, y] + ([z] + (Receiving(chars) + [e]));
    RunAppend(a, [x, y], [z] + (Receiving(chars) + [e]));
    RunFirst(b, z, Receiving(chars) + [e]);
    RunAppend(c, Receiving(chars), [e]);
    RunOne(d, e);
  }

  lemma ClearedReceives(a: App)
    requires Inv(a) && a.main == MAIN_WAIT
    ensures a.setup == SETUP_CLEARED
  {
    hide GoodInput;
  }
}
