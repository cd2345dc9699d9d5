/**
 The configuration application: the main state machine, its three pages, and what holds
 over every run. States are the C enumeration values, because the key option tables write
 them as plain numbers. Each turn of the loop takes the answers of the firmware services it
 calls from an Env; a system reset or a boot ends the run.
 */
module ConfApp {
  import opened Bytes
  import opened VarList
  import opened BootMenu
  import opened SerialInput

  // ConfState_t
  const MAIN_INIT := 0
  const MAIN_WAIT := 1
  const SYSTEM_INFO := 2
  const BOOT_OPTION := 4
  const SETUP_CONF := 5
  const MAIN_EXIT := 6

  // SysInfoState_t
  const SYS_INIT := 0
  const SYS_WAIT := 1
  const SYS_EXIT := 2

  // SetupConfState_t
  const SETUP_INIT := 0
  const SETUP_WAIT := 1
  const UPDATE_USB := 2
  const UPDATE_SERIAL_HINT := 3
  const UPDATE_SERIAL := 4
  const DUMP_SERIAL := 5
  const DUMP_COMPLETE := 6
  const SETUP_EXIT := 7
  const SETUP_ERROR := 8

  const MAX_UINT32 := 0xffff_ffff

  datatype KeyOption = KeyOption(unicode: nat, scan: nat, endState: nat)

  const MAIN_OPTIONS := [
    KeyOption('1' as int, 0, SYSTEM_INFO), KeyOption('2' as int, 0, BOOT_OPTION), KeyOption('3' as int, 0, SETUP_CONF),
    KeyOption('h' as int, 0, MAIN_INIT), KeyOption(CHAR_NULL, SCAN_ESC, MAIN_EXIT)
  ]

  const SYS_OPTIONS := [KeyOption(CHAR_NULL, SCAN_ESC, SYS_EXIT)]

  /** The globals of the setup page: its state, the end states of its first two options, the serial buffer. */
  datatype SetupPage = SetupPage(state: nat, usbEnd: nat, serialEnd: nat, received: Option<seq<Char16>>)

  /** What ResetGlobals leaves. */
  const SETUP_CLEARED := SetupPage(SETUP_INIT, UPDATE_USB, UPDATE_SERIAL_HINT, None)

  /** The table has six slots; the last one is all zeros. */
  function SetupOptions(usbEnd: nat, serialEnd: nat): seq<KeyOption> {
    [KeyOption('1' as int, 0, usbEnd), KeyOption('2' as int, 0, serialEnd), KeyOption('3' as int, 0, DUMP_SERIAL),
     KeyOption('h' as int, 0, SETUP_INIT), KeyOption(CHAR_NULL, SCAN_ESC, SETUP_EXIT), KeyOption(0, 0, 0)]
  }

  datatype Poll = Pressed(key: Key) | NotReady | TimedOut | DeviceError

  datatype Usb = FileNotFound | LoadFailed | ApplyFailed | Applied

  datatype Serial = NotAscii | NoMapping | SettingsFailed | SettingsApplied

  datatype Dump = DumpFailed | InspectionFailed | Dumped

  /** The answers of the services during one turn; wrote says whether applying settings wrote variables. */
  datatype Env = Env(poll: Poll, manufacturing: bool, bootOptions: nat, printed: bool, dated: bool,
                     usb: Usb, serial: Serial, wrote: bool, dump: Dump)

  datatype Power = On | Resetting | Booting(option: nat)

  /** All globals; writes counts the turns that wrote variables, strayed says a default branch was taken. */
  datatype App = App(main: nat, sys: nat, boot: BootPage, setup: SetupPage, power: Power, writes: nat, strayed: bool)

  const START := App(MAIN_INIT, SYS_INIT, CLEARED, SETUP_CLEARED, On, 0, false)

  /** A manager's new state and whether its status is not an error. */
  datatype Result = Result(app: App, ok: bool)

  function FirstMatch(key: Key, options: seq<KeyOption>): Option<nat> {
    if options == [] then None
    else
      var o := options[0];
      if !(o.unicode == CHAR_NULL && o.scan == 0) && o.endState != MAX_UINT32
         && o.unicode == key.unicode && o.scan == key.scan
      then Some(o.endState)
      else FirstMatch(key, options[1..])
  }

  /** CheckSupportedOptions: the new state, or the old one when no option matches. */
  function NextState(key: Key, options: seq<KeyOption>, state: nat): nat {
    var m := FirstMatch(key, options);
    if m.Some? then m.value else state
  }

  // ----------------------------------------------------------------------- the pages

  /** SysInfoMgr. A keystroke that is not ready is returned as an error here. */
  function SysInfoStep(a: App, e: Env): Result {
    if a.sys == SYS_INIT then Result(if e.printed then a.(sys := SYS_WAIT) else a, e.printed)
    else if a.sys == SYS_WAIT then
      match e.poll
      case TimedOut => Result(a, e.dated)
      case Pressed(k) => Result(a.(sys := NextState(k, SYS_OPTIONS, a.sys)), true)
      case _ => Result(a, false)
    else if a.sys == SYS_EXIT then Result(a.(sys := SYS_INIT, main := MAIN_INIT), true)
    else Result(a.(strayed := true), false)
  }

  /** BootOptionMgr. */
  function BootOptionStep(a: App, e: Env): Result {
    if a.boot.state == BOOT_INIT then
      Result(a.(boot := a.boot.(state := BOOT_WAIT, optionCount := e.bootOptions)), true)
    else if a.boot.state == BOOT_WAIT then
      match e.poll
      case NotReady => Result(a, true)
      case Pressed(k) => Result(a.(boot := PressKey(a.boot, k)), true)
      case _ => Result(a, false)
    else if a.boot.state == BOOT_NOW then Result(a.(power := Booting(a.boot.candidate)), true)
    else if a.boot.state == BOOT_EXIT then Result(a.(boot := CLEARED, main := MAIN_INIT), true)
    else Result(a.(strayed := true), false)
  }

  /** PrintOptions: outside manufacturing mode both update options lead to the error state. */
  function SetupPrinted(p: SetupPage, manufacturing: bool): SetupPage {
    if manufacturing then p.(state := SETUP_WAIT)
    else p.(state := SETUP_WAIT, usbEnd := SETUP_ERROR, serialEnd := SETUP_ERROR)
  }

  function UsbStep(a: App, e: Env): Result {
    var wrote := a.writes + if e.wrote then 1 else 0;
    match e.usb
    case FileNotFound => Result(a.(setup := a.setup.(state := SETUP_WAIT)), true)
    case LoadFailed => Result(a.(setup := a.setup.(state := SETUP_EXIT)), false)
    case ApplyFailed => Result(a.(setup := a.setup.(state := SETUP_EXIT), writes := wrote), false)
    case Applied => Result(a.(power := Resetting, writes := wrote), true)
  }

  /** ProcessSvdSerialInput on one character, and the state it leads to. */
  function SerialStep(a: App, e: Env, c: Char16): Result {
    var wrote := a.writes + if e.wrote then 1 else 0;
    var p := a.setup.(received := Some(Stored(a.setup.received, c)));
    if Terminator(c) then
      match e.serial
      case NotAscii => Result(a.(setup := p.(state := SETUP_EXIT)), false)
      case NoMapping => Result(a.(setup := p.(state := UPDATE_SERIAL_HINT, received := None), writes := wrote), true)
      case SettingsFailed => Result(a.(setup := p.(state := SETUP_EXIT), writes := wrote), false)
      case SettingsApplied => Result(a.(setup := p, power := Resetting, writes := wrote), true)
    else Result(a.(setup := p), true)
  }

  /** SetupConfMgr. In the wait and dump states a keystroke that is not ready is returned as an error. */
  function SetupStep(a: App, e: Env): Result {
    var p := a.setup;
    if p.state == SETUP_INIT then Result(a.(setup := SetupPrinted(p, e.manufacturing)), true)
    else if p.state == SETUP_WAIT then
      match e.poll
      case Pressed(k) =>
        Result(a.(setup := p.(state := NextState(k, SetupOptions(p.usbEnd, p.serialEnd), p.state))), true)
      case _ => Result(a, false)
    else if p.state == UPDATE_USB then UsbStep(a, e)
    else if p.state == UPDATE_SERIAL_HINT || p.state == UPDATE_SERIAL then
      var b := a.(setup := p.(state := UPDATE_SERIAL));
      match e.poll
      case NotReady => Result(b, true)
      case Pressed(k) =>
        if k.scan == SCAN_ESC then Result(b.(setup := b.setup.(state := SETUP_EXIT)), true)
        else SerialStep(b, e, k.unicode)
      case _ => Result(b, false)
    else if p.state == DUMP_SERIAL then
      Result(if e.dump == InspectionFailed then a else a.(setup := p.(state := DUMP_COMPLETE)), true)
    else if p.state == DUMP_COMPLETE then
      match e.poll
      case Pressed(k) =>
        Result(if k.unicode == CHAR_NULL && k.scan == SCAN_ESC then a.(setup := p.(state := SETUP_INIT)) else a, true)
      case _ => Result(a, false)
    else if p.state == SETUP_ERROR then Result(a.(setup := p.(state := SETUP_WAIT)), true)
    else if p.state == SETUP_EXIT then Result(a.(setup := SETUP_CLEARED, main := MAIN_INIT), true)
    else Result(a.(strayed := true), false)
  }

  // ------------------------------------------------------------------------ the loop

  function MainCase(a: App, e: Env): Result {
    if a.main == MAIN_INIT then Result(a.(main := MAIN_WAIT), true)
    else if a.main == MAIN_WAIT then
      match e.poll
      case NotReady => Result(a, true)
      case Pressed(k) => Result(a.(main := NextState(k, MAIN_OPTIONS, a.main)), true)
      case _ => Result(a, false)
    else if a.main == SYSTEM_INFO then SysInfoStep(a, e)
    else if a.main == BOOT_OPTION then BootOptionStep(a, e)
    else if a.main == SETUP_CONF then SetupStep(a, e)
    else if a.main == MAIN_EXIT then
      match e.poll
      case Pressed(k) =>
        if k.unicode == 'y' as int || k.unicode == 'Y' as int then Result(a.(power := Resetting), true)
        else Result(a.(main := MAIN_INIT), true)
      case _ => Result(a, false)
    else Result(a.(strayed := true), true)
  }

  /** One turn of the main loop; an error status resets the system. */
  function Step(a: App, e: Env): App {
    if !a.power.On? then a
    else
      var r := MainCase(a, e);
      if !r.ok && r.app.power.On? then r.app.(power := Resetting) else r.app
  }

  function Run(a: App, es: seq<Env>): App
    decreases |es|
  {
    if es == [] then a else Step(Run(a, es[..|es| - 1]), es[|es| - 1])
  }

  // ------------------------------------------------------------ what every run keeps

  predicate SetupOk(p: SetupPage) {
    p.state <= SETUP_ERROR && p.usbEnd in {UPDATE_USB, SETUP_ERROR} && p.serialEnd in {UPDATE_SERIAL_HINT, SETUP_ERROR}
  }

  predicate BootOk(p: BootPage) {
    p.state in {BOOT_INIT, BOOT_WAIT, BOOT_NOW, BOOT_EXIT} && GoodInput(p.input)
    && (p.state == BOOT_NOW ==> p.candidate < p.optionCount)
  }

  /**
   Only the active page is away from its initial state with cleared globals, every state is
   one the switch statements have a case for, and no default branch has been taken.
   */
  predicate Inv(a: App) {
    && a.main in {MAIN_INIT, MAIN_WAIT, SYSTEM_INFO, BOOT_OPTION, SETUP_CONF, MAIN_EXIT}
    && a.sys <= SYS_EXIT && (a.main != SYSTEM_INFO ==> a.sys == SYS_INIT)
    && BootOk(a.boot) && (a.main != BOOT_OPTION ==> a.boot == CLEARED)
    && SetupOk(a.setup) && (a.main != SETUP_CONF ==> a.setup == SETUP_CLEARED)
    && !a.strayed
  }

  lemma {:induction false} MatchIsEndState(key: Key, options: seq<KeyOption>)
    ensures FirstMatch(key, options).Some? ==>
              exists i :: 0 <= i < |options| && options[i].endState == FirstMatch(key, options).value
                          && options[i].unicode == key.unicode && options[i].scan == key.scan
  {
    if options != [] {
      MatchIsEndState(key, options[1..]);
      var rest := options[1..];
      if i :| FirstMatch(key, rest).Some? && 0 <= i < |rest| && rest[i].endState == FirstMatch(key, rest).value
              && rest[i].unicode == key.unicode && rest[i].scan == key.scan {
        assert options[i + 1] == rest[i];
      }
    }
  }

  lemma SelectionBound(p: BootPage, k: Key)
    requires BootOk(p) && p.state == BOOT_WAIT
    ensures BootOk(PressKey(p, k))
  {
    hide Selection, GoodInput;
    PressKeyGood(p, k);
  }

  lemma SetupStepOk(a: App, e: Env)
    requires Inv(a) && a.main == SETUP_CONF
    ensures Inv(SetupStep(a, e).app)
  {
    hide FirstMatch, BootOk;
    if a.setup.state == SETUP_WAIT && e.poll.Pressed? {
      MatchIsEndState(e.poll.key, SetupOptions(a.setup.usbEnd, a.setup.serialEnd));
    }
  }

  lemma BootStepOk(a: App, e: Env)
    requires Inv(a) && a.main == BOOT_OPTION
    ensures Inv(BootOptionStep(a, e).app)
  {
    hide PressKey, SetupOk;
    if a.boot.state == BOOT_WAIT && e.poll.Pressed? {
      SelectionBound(a.boot, e.poll.key);
    }
  }

  lemma StepOk(a: App, e: Env)
    requires Inv(a)
    ensures Inv(Step(a, e))
  {
    hide FirstMatch, BootOptionStep, SetupStep, SetupOk, BootOk;
    if a.power.On? {
      if a.main == SETUP_CONF {
        SetupStepOk(a, e);
      } else if a.main == BOOT_OPTION {
        BootStepOk(a, e);
      } else if a.main == MAIN_WAIT && e.poll.Pressed? {
        MatchIsEndState(e.poll.key, MAIN_OPTIONS);
      } else if a.main == SYSTEM_INFO && a.sys == SYS_WAIT && e.poll.Pressed? {
        MatchIsEndState(e.poll.key, SYS_OPTIONS);
      }
    }
  }

  /** The invariant holds at every point of every run of the application. */
  lemma {:induction false} RunOk(es: seq<Env>)
    ensures Inv(Run(START, es))
    decreases |es|
  {
    hide Step;
    if es == [] {
      StartOk();
    } else {
      RunOk(es[..|es| - 1]);
      StepOk(Run(START, es[..|es| - 1]), es[|es| - 1]);
    }
  }

  lemma StartOk()
    ensures Inv(START)
  {}

  // --------------------------------------------- no update outside manufacturing mode

  predicate Updating(p: SetupPage) {
    p.state == UPDATE_USB || p.state == UPDATE_SERIAL_HINT || p.state == UPDATE_SERIAL
  }

  /** This turn asks for the mode and is told that it is not manufacturing. */
  predicate Refused(a: App, e: Env) {
    a.power.On? && a.main == SETUP_CONF && a.setup.state == SETUP_INIT && !e.manufacturing
  }

  /** This turn leaves the setup page. */
  predicate Leaves(a: App) {
    a.power.On? && a.main == SETUP_CONF && a.setup.state == SETUP_EXIT
  }

  /** Both update options of the visited setup page lead to the error state, and no update is under way. */
  predicate Locked(a: App) {
    a.main == SETUP_CONF && a.setup.usbEnd == SETUP_ERROR && a.setup.serialEnd == SETUP_ERROR && !Updating(a.setup)
  }

  lemma RefusedLocks(a: App, e: Env)
    requires Refused(a, e)
    ensures Locked(Step(a, e)) && Step(a, e).writes == a.writes
  {}

  lemma LockedStays(a: App, e: Env)
    requires Locked(a) && !Leaves(a)
    ensures Locked(Step(a, e)) && Step(a, e).writes == a.writes
  {
    hide FirstMatch;
    if a.power.On? && a.setup.state == SETUP_WAIT && e.poll.Pressed? {
      MatchIsEndState(e.poll.key, SetupOptions(a.setup.usbEnd, a.setup.serialEnd));
    }
  }

  /**
   In every run: once a mode query has been answered with "not manufacturing", no update
   state is entered and no variable is written until the setup page is left, even if a later
   query of the same visit is answered differently.
   */
  lemma {:induction false} NoUpdateAfterRefusal(es: seq<Env>, i: nat, j: nat)
    requires i < j <= |es| && Refused(Run(START, es[..i]), es[i])
    requires forall k :: i < k < j ==> !Leaves(Run(START, es[..k]))
    ensures Locked(Run(START, es[..j])) && Run(START, es[..j]).writes == Run(START, es[..i]).writes
    decreases j
  {
    hide Step, Locked;
    assert es[..j][..j - 1] == es[..j - 1];
    if j == i + 1 {
      RefusedLocks(Run(START, es[..i]), es[i]);
    } else {
      NoUpdateAfterRefusal(es, i, j - 1);
      LockedStays(Run(START, es[..j - 1]), es[j - 1]);
    }
  }

  /** A run is about to boot only because the turn before was the Enter that chose the option. */
  lemma BootNowByEnter(es: seq<Env>)
    requires Run(START, es).power.On? && Run(START, es).boot.state == BOOT_NOW
    ensures es != []
    ensures var a, e := Run(START, es[..|es| - 1]), es[|es| - 1];
            && a.power.On? && a.main == BOOT_OPTION && a.boot.state == BOOT_WAIT && GoodInput(a.boot.input)
            && e.poll.Pressed? && e.poll.key.unicode == BootMenu.CHAR_CARRIAGE_RETURN
            && Run(START, es).boot == PressKey(a.boot, e.poll.key)
  {
    hide FirstMatch, GoodInput, Selection, SysInfoStep, SetupStep;
    var a, e := Run(START, es[..|es| - 1]), es[|es| - 1];
    RunOk(es[..|es| - 1]);
    if a.main != BOOT_OPTION {
      OtherPagesKeepBoot(a, e);
    }
  }

  /** Only the boot option page changes its own globals. */
  lemma OtherPagesKeepBoot(a: App, e: Env)
    requires Inv(a) && a.main != BOOT_OPTION
    ensures Step(a, e).boot == CLEARED
  {
    hide FirstMatch, GoodInput;
  }

  /**
   Over every run: whatever boots is an option that exists, and, for at most 65536 options,
   the one whose printed key name was in the buffer at the Enter that chose it.
   */
  lemma BootsNamedOption(es: seq<Env>, e: Env)
    requires var a := Run(START, es); a.power.On? && Step(a, e).power.Booting?
    ensures var option := Step(Run(START, es), e).power.option;
            && option < Run(START, es).boot.optionCount
            && es != []
            && var chosen, enter := Run(START, es[..|es| - 1]), es[|es| - 1];
               && chosen.main == BOOT_OPTION && chosen.boot.state == BOOT_WAIT
               && enter.poll.Pressed? && enter.poll.key.unicode == BootMenu.CHAR_CARRIAGE_RETURN
               && (chosen.boot.optionCount <= 0x1_0000 ==> chosen.boot.input == KeyName(option))
  {
    hide FirstMatch, GoodInput, KeyName, Selection, SysInfoStep, SetupStep;
    var a := Run(START, es);
    RunOk(es);
    OnlyBootNowBoots(a, e);
    BootNowByEnter(es);
    var chosen, enter := Run(START, es[..|es| - 1]), es[|es| - 1];
    if chosen.boot.optionCount <= 0x1_0000 {
      EnterBootsExactly(chosen.boot, enter.poll.key, a.boot.candidate);
    }
  }

  lemma OnlyBootNowBoots(a: App, e: Env)
    requires Inv(a) && a.power.On? && Step(a, e).power.Booting?
    ensures a.main == BOOT_OPTION && a.boot.state == BOOT_NOW && Step(a, e).power.option == a.boot.candidate
  {
    hide FirstMatch, GoodInput, PressKey;
  }

  // ------------------------------------------------------ a keystroke that is not ready

  /** The states whose poll leaves EFI_NOT_READY in the status. */
  predicate LeavesNotReady(a: App) {
    || (a.main == SYSTEM_INFO && a.sys == SYS_WAIT)
    || (a.main == SETUP_CONF && (a.setup.state == SETUP_WAIT || a.setup.state == DUMP_COMPLETE))
    || a.main == MAIN_EXIT
  }

  /** The turns that do not poll a key and whose own service fails, boots or resets. */
  predicate Halts(a: App, e: Env) {
    || (a.main == SYSTEM_INFO && a.sys == SYS_INIT && !e.printed)
    || (a.main == BOOT_OPTION && a.boot.state == BOOT_NOW)
    || (a.main == SETUP_CONF && a.setup.state == UPDATE_USB && e.usb != FileNotFound)
  }

  /**
   When no key is ready the application goes on, except in exactly these states: the waits of
   the system information and setup pages, the end of a dump and the exit prompt reset the
   system, and so may the turns that do not poll.
   */
  lemma NotReadyGoesOnIff(a: App, e: Env)
    requires Inv(a) && a.power.On? && e.poll == NotReady
    ensures Step(a, e).power.On? <==> !LeavesNotReady(a) && !Halts(a, e)
    ensures LeavesNotReady(a) ==> Step(a, e).power == Resetting
  {
    hide GoodInput;
  }

  // --------------------------------------------------------- the application object

  class Application {
    var main: nat
    var sys: nat
    const menu: Menu
    var setupState: nat
    var usbEnd: nat
    var serialEnd: nat
    const serial: SerialBuffer
    var power: Power
    var writes: nat
    var strayed: bool

    ghost predicate Valid()
      reads this, menu, menu.inputBuffer, serial
    {
      menu.Valid() && serial.Valid()
    }

    ghost function State(): App
      requires Valid()
      reads this, menu, menu.inputBuffer, serial, serial.buffer
    {
      App(main, sys, menu.Page(), SetupPage(setupState, usbEnd, serialEnd, serial.Received()), power, writes, strayed)
    }

    constructor ()
      ensures Valid() && State() == START
      ensures fresh(menu) && fresh(menu.inputBuffer) && fresh(serial) && serial.buffer == null
    {
      main, sys := MAIN_INIT, SYS_INIT;
      setupState, usbEnd, serialEnd := SETUP_INIT, UPDATE_USB, UPDATE_SERIAL_HINT;
      power, writes, strayed := On, 0, false;
      menu := new Menu();
      serial := new SerialBuffer();
    }

    /** The option search: the first usable entry whose character and scan code both match. */
    static method CheckSupportedOptions(key: Key, options: seq<KeyOption>, state: nat) returns (next: nat)
      ensures next == NextState(key, options, state)
    {
      next := state;
      for i := 0 to |options|
        invariant FirstMatch(key, options) == FirstMatch(key, options[i..])
      {
        var o := options[i];
        assert options[i..][1..] == options[i + 1..];
        if o.unicode == CHAR_NULL && o.scan == 0 {
          continue;
        }
        if o.endState == MAX_UINT32 {
          continue;
        }
        if o.unicode == key.unicode && o.scan == key.scan {
          return o.endState;
        }
      }
    }

    method SysInfoMgr(e: Env) returns (ok: bool)
      requires Valid()
      modifies this`sys, this`main, this`strayed
      ensures Valid() && Result(State(), ok) == SysInfoStep(old(State()), e)
    {
      hide FirstMatch;
      ok := true;
      if sys == SYS_INIT {
        ok := e.printed;
        if ok {
          sys := SYS_WAIT;
        }
      } else if sys == SYS_WAIT {
        match e.poll
        case TimedOut => ok := e.dated;
        case Pressed(k) => sys := CheckSupportedOptions(k, SYS_OPTIONS, sys);
        case _ => ok := false;
      } else if sys == SYS_EXIT {
        sys := SYS_INIT;
        main := MAIN_INIT;
      } else {
        strayed := true;
        ok := false;
      }
    }

    method BootOptionMgr(e: Env) returns (ok: bool)
      requires Valid()
      modifies this`main, this`power, this`strayed, menu, menu.inputBuffer
      ensures Valid() && Result(State(), ok) == BootOptionStep(old(State()), e)
    {
      hide PressKey, GoodInput;
      ok := true;
      if menu.state == BOOT_INIT {
        menu.Open(e.bootOptions);
      } else if menu.state == BOOT_WAIT {
        match e.poll
        case NotReady =>
        case Pressed(k) => menu.OnKey(k);
        case _ => ok := false;
      } else if menu.state == BOOT_NOW {
        power := Booting(menu.candidate);
      } else if menu.state == BOOT_EXIT {
        menu.Reset();
        main := MAIN_INIT;
      } else {
        strayed := true;
        ok := false;
      }
    }

    method ProcessSvdUsbInput(e: Env) returns (ok: bool)
      requires Valid()
      modifies this`setupState, this`power, this`writes
      ensures Valid() && Result(State(), ok) == UsbStep(old(State()), e)
    {
      ok := true;
      if e.usb == FileNotFound {
        setupState := SETUP_WAIT;
        return;
      }
      if e.usb != LoadFailed && e.wrote {
        writes := writes + 1;
      }
      if e.usb == Applied {
        power := Resetting;
        return;
      }
      setupState := SETUP_EXIT;
      ok := false;
    }

    method ProcessSvdSerialInput(e: Env, c: Char16) returns (ok: bool)
      requires Valid()
      modifies this`setupState, this`power, this`writes, serial, serial.buffer
      ensures Valid() && Result(State(), ok) == SerialStep(old(State()), e, c)
      ensures serial.buffer == null || serial.buffer == old(serial.buffer) || fresh(serial.buffer)
    {
      hide Stored, GoodInput;
      var inside, complete := serial.Put(c);
      ok := true;
      if !complete {
        return;
      }
      if e.serial != NotAscii && e.wrote {
        writes := writes + 1;
      }
      match e.serial
      case NoMapping =>
        setupState := UPDATE_SERIAL_HINT;
        serial.Drop();
      case SettingsApplied => power := Resetting;
      case _ =>
        setupState := SETUP_EXIT;
        ok := false;
    }

    method SetupConfMgr(e: Env) returns (ok: bool)
      requires Valid()
      modifies this`main, this`setupState, this`usbEnd, this`serialEnd, this`power, this`writes, this`strayed
      modifies serial, serial.buffer
      ensures Valid() && Result(State(), ok) == SetupStep(old(State()), e)
      ensures serial.buffer == null || serial.buffer == old(serial.buffer) || fresh(serial.buffer)
    {
      hide NextState, SetupOptions, UsbStep, SerialStep, Stored, GoodInput;
      ok := true;
      if setupState == SETUP_INIT {
        if !e.manufacturing {
          usbEnd, serialEnd := SETUP_ERROR, SETUP_ERROR;
        }
        setupState := SETUP_WAIT;
      } else if setupState == SETUP_WAIT {
        match e.poll
        case Pressed(k) => setupState := CheckSupportedOptions(k, SetupOptions(usbEnd, serialEnd), setupState);
        case _ => ok := false;
      } else if setupState == UPDATE_USB {
        ok := ProcessSvdUsbInput(e);
      } else if setupState == UPDATE_SERIAL_HINT || setupState == UPDATE_SERIAL {
        setupState := UPDATE_SERIAL;
        match e.poll
        case NotReady =>
        case Pressed(k) =>
          if k.scan == SCAN_ESC {
            setupState := SETUP_EXIT;
          } else {
            ok := ProcessSvdSerialInput(e, k.unicode);
          }
        case _ => ok := false;
      } else if setupState == DUMP_SERIAL {
        if e.dump != InspectionFailed {
          setupState := DUMP_COMPLETE;
        }
      } else if setupState == DUMP_COMPLETE {
        match e.poll
        case Pressed(k) =>
          if k.unicode == CHAR_NULL && k.scan == SCAN_ESC {
            setupState := SETUP_INIT;
          }
        case _ => ok := false;
      } else if setupState == SETUP_ERROR {
        setupState := SETUP_WAIT;
      } else if setupState == SETUP_EXIT {
        setupState, usbEnd, serialEnd := SETUP_INIT, UPDATE_USB, UPDATE_SERIAL_HINT;
        serial.Reset();
        main := MAIN_INIT;
      } else {
        strayed := true;
        ok := false;
      }
    }

    /** One turn of the while loop of ConfAppEntry. */
    method Turn(e: Env)
      requires Valid() && power.On?
      modifies this, menu, menu.inputBuffer, serial, serial.buffer
      ensures Valid() && State() == Step(old(State()), e)
      ensures serial.buffer == null || serial.buffer == old(serial.buffer) || fresh(serial.buffer)
    {
      hide NextState, SysInfoStep, BootOptionStep, SetupStep, GoodInput;
      var ok := true;
      if main == MAIN_INIT {
        main := MAIN_WAIT;
      } else if main == MAIN_WAIT {
        match e.poll
        case NotReady =>
        case Pressed(k) => main := CheckSupportedOptions(k, MAIN_OPTIONS, main);
        case _ => ok := false;
      } else if main == SYSTEM_INFO {
        ok := SysInfoMgr(e);
      } else if main == BOOT_OPTION {
        ok := BootOptionMgr(e);
      } else if main == SETUP_CONF {
        ok := SetupConfMgr(e);
      } else if main == MAIN_EXIT {
        match e.poll
        case Pressed(k) =>
          if k.unicode == 'y' as int || k.unicode == 'Y' as int {
            power := Resetting;
          } else {
            main := MAIN_INIT;
          }
        case _ => ok := false;
      } else {
        strayed := true;
      }
      if !ok && power.On? {
        power := Resetting;
      }
    }

    /** The main loop over the answers of a whole session. */
    method Session(es: seq<Env>)
      requires Valid() && State() == START
      modifies this, menu, menu.inputBuffer, serial, serial.buffer
      ensures Valid() && State() == Run(START, es) && Inv(State())
    {
      hide Step, Inv, GoodInput;
      StartOk();
      for i := 0 to |es|
        invariant Valid() && State() == Run(START, es[..i]) && Inv(State())
        invariant serial.buffer == null || serial.buffer == old(serial.buffer) || fresh(serial.buffer)
      {
        assert es[..i + 1][..i] == es[..i];
        StepOk(State(), es[i]);
        if power.On? {
          Turn(es[i]);
        } else {
          HaltedStays(State(), es[i]);
        }
      }
      assert es[..|es|] == es;
    }
  }

  lemma HaltedStays(a: App, e: Env)
    requires !a.power.On?
    ensures Step(a, e) == a
  {}
}
