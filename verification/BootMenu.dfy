/**
 The boot option page: the digit buffer that keystrokes edit, the selection Enter makes
 from it, and the key names printed beside the options.
 */
module BootMenu {
  import opened PyText
  import opened VarList

  /** A keystroke: its Unicode character and its scan code. */
  datatype Key = Key(unicode: Char16, scan: Char16)

  const SCAN_ESC := 0x17
  const CHAR_NULL := 0
  const CHAR_BACKSPACE := 8
  const CHAR_CARRIAGE_RETURN := 13
  const MAX_DIGITS := 5

  // BootOptState_t
  const BOOT_INIT := 0
  const BOOT_WAIT := 1
  const BOOT_NOW := 2
  const BOOT_EXIT := 4

  /** The globals of the page. */
  datatype BootPage = BootPage(state: nat, optionCount: nat, input: string, candidate: nat)

  /** What ResetGlobals leaves. */
  const CLEARED := BootPage(BOOT_INIT, 0, "", 0)

  predicate DigitKey(k: Key) {
    '0' as int <= k.unicode <= '9' as int
  }

  /** The number a digit string denotes, digit by digit from the left. */
  function Selection(s: string): nat {
    if s == [] || s[|s| - 1] < '0' then 0 else Selection(s[..|s| - 1]) * 10 + (s[|s| - 1] as int - '0' as int)
  }

  /** BootOptionMgr in its wait state, on one keystroke. */
  function PressKey(p: BootPage, k: Key): BootPage {
    if k.scan == SCAN_ESC && k.unicode == CHAR_NULL then p.(state := BOOT_EXIT, input := "")
    else if k.unicode == CHAR_CARRIAGE_RETURN then
      if p.input == "" then p
      else
        var n := Selection(p.input);
        if 1 <= n <= p.optionCount then BootPage(BOOT_NOW, p.optionCount, "", (n - 1) % 0x1_0000)
        else p.(input := "")
    else if k.unicode == CHAR_BACKSPACE then (if p.input == "" then p else p.(input := p.input[..|p.input| - 1]))
    else if DigitKey(k) then
      if p.input == "" && k.unicode == '0' as int then p
      else if |p.input| < MAX_DIGITS then p.(input := p.input + [k.unicode as char])
      else p
    else p
  }

  /** At most five digits, the first of them not zero. */
  predicate GoodInput(s: string) {
    |s| <= MAX_DIGITS && (forall c <- s :: IsDigit(c)) && (s != "" ==> s[0] != '0')
  }

  /** The name PrintBootOptions shows for an option: its one-based index, cut to five characters. */
  function KeyName(i: nat): (r: string)
    ensures forall c <- r :: IsDigit(c)
  {
    var s := Decimal(i + 1);
    if |s| <= MAX_DIGITS then s else s[..MAX_DIGITS]
  }

  /** The keys of one visit, up to the one that leaves the wait state. */
  function Visit(p: BootPage, keys: seq<Key>): BootPage
    decreases |keys|
  {
    if keys == [] || p.state != BOOT_WAIT then p else Visit(PressKey(p, keys[0]), keys[1..])
  }

  lemma PressKeyGood(p: BootPage, k: Key)
    requires GoodInput(p.input)
    ensures GoodInput(PressKey(p, k).input) && PressKey(p, k).optionCount == p.optionCount
  {}

  lemma {:induction false} SelectionOfDecimal(n: nat)
    ensures Selection(Decimal(n)) == n
  {
    if n < 10 {
      assert [Digit(n)][..0] == [];
    } else {
      SelectionOfDecimal(n / 10);
      var s := Decimal(n);
      assert s[..|s| - 1] == Decimal(n / 10) && s[|s| - 1] == Digit(n % 10);
    }
  }

  /** A digit string without a leading zero is the decimal of its value. */
  lemma {:induction false} DecimalOfSelection(s: string)
    requires s != "" && (forall c <- s :: IsDigit(c)) && s[0] != '0'
    ensures Selection(s) >= 1 && Decimal(Selection(s)) == s
    decreases |s|
  {
    hide Selection, Decimal;
    var front, c := s[..|s| - 1], s[|s| - 1];
    assert IsDigit(c) && s == front + [c];
    var d := c as int - '0' as int;
    SelectionLast(s);
    DecimalLast(Selection(front), d);
    if front == [] {
      SelectionEmpty();
    } else {
      assert front[0] == s[0];
      DecimalOfSelection(front);
    }
  }

  lemma SelectionEmpty()
    ensures Selection("") == 0
  {}

  lemma SelectionLast(s: string)
    requires s != "" && IsDigit(s[|s| - 1])
    ensures Selection(s) == 10 * Selection(s[..|s| - 1]) + (s[|s| - 1] as int - '0' as int)
  {}

  lemma DecimalLast(n: nat, d: nat)
    requires d < 10
    ensures Decimal(10 * n + d) == if n == 0 then [Digit(d)] else Decimal(n) + [Digit(d)]
  {}

  lemma {:induction false} DecimalShort(n: nat)
    ensures |Decimal(n)| <= 5 <==> n <= 99999
    ensures |Decimal(n)| <= 4 <==> n <= 9999
    ensures |Decimal(n)| <= 3 <==> n <= 999
    ensures |Decimal(n)| <= 2 <==> n <= 99
    ensures |Decimal(n)| <= 1 <==> n <= 9
  {
    if n >= 10 {
      DecimalShort(n / 10);
    }
  }

  /** The digits in the buffer are the key name of option i exactly when they denote i + 1. */
  lemma NameIsSelection(s: string, i: nat)
    requires GoodInput(s) && i < 99999
    ensures s == KeyName(i) <==> s != "" && Selection(s) == i + 1
    ensures s != "" ==> Selection(s) >= 1
  {
    hide Decimal, Selection;
    DecimalShort(i + 1);
    SelectionOfDecimal(i + 1);
    if s != "" {
      DecimalOfSelection(s);
    }
  }

  /**
   Enter boots option i exactly when the digits in the buffer are the key name printed for
   option i, for at most 65536 options.
   */
  lemma EnterBootsExactly(p: BootPage, k: Key, i: nat)
    requires p.state == BOOT_WAIT && GoodInput(p.input) && p.optionCount <= 0x1_0000
    requires k.unicode == CHAR_CARRIAGE_RETURN
    ensures var q := PressKey(p, k);
            (q.state == BOOT_NOW && q.candidate == i) <==> i < p.optionCount && p.input == KeyName(i)
  {
    hide GoodInput, KeyName, Selection;
    if i < p.optionCount {
      NameIsSelection(p.input, i);
    }
  }

  /** With more options, an entry above 65536 boots an option whose key name is not the entry. */
  lemma EnterWraps(p: BootPage)
    requires p.state == BOOT_WAIT && GoodInput(p.input) && p.input != ""
    requires Selection(p.input) <= p.optionCount
    ensures var q := PressKey(p, Key(CHAR_CARRIAGE_RETURN, 0));
            q.state == BOOT_NOW
            && (KeyName(q.candidate) == p.input <==> Selection(p.input) <= 0x1_0000)
  {
    hide GoodInput, KeyName, Selection;
    NameIsSelection(p.input, 0);
    var q := PressKey(p, Key(CHAR_CARRIAGE_RETURN, 0));
    NameIsSelection(p.input, q.candidate);
  }

  /** The n-th key is the Enter that chose the option that boots, and the buffer then held the option's key name. */
  ghost predicate ChosenAt(p: BootPage, keys: seq<Key>, n: nat) {
    && n < |keys| && keys[n].unicode == CHAR_CARRIAGE_RETURN
    && var at, q := Visit(p, keys[..n]), Visit(p, keys);
       at.state == BOOT_WAIT && at.input == KeyName(q.candidate) && PressKey(at, keys[n]) == q
  }

  /**
   Over every key sequence the buffer keeps at most five digits and no leading zero, and
   whatever boots is an existing option whose key name was in the buffer at the Enter that
   chose it.
   */
  lemma {:induction false} VisitBoots(p: BootPage, keys: seq<Key>)
    requires p.state == BOOT_WAIT && GoodInput(p.input) && p.optionCount <= 0x1_0000
    ensures var q := Visit(p, keys);
            && GoodInput(q.input)
            && (q.state == BOOT_NOW ==> q.candidate < p.optionCount && exists n: nat :: ChosenAt(p, keys, n))
    decreases |keys|
  {
    hide KeyName, Selection;
    if keys != [] {
      var r := PressKey(p, keys[0]);
      PressKeyGood(p, keys[0]);
      if r.state == BOOT_WAIT {
        VisitBoots(r, keys[1..]);
        if Visit(p, keys).state == BOOT_NOW {
          var n: nat :| ChosenAt(r, keys[1..], n);
          assert keys[..n + 1][1..] == keys[1..][..n];
          assert Visit(p, keys[..n + 1]) == Visit(r, keys[1..][..n]);
          assert ChosenAt(p, keys, n + 1);
        }
      } else if r.state == BOOT_NOW {
        assert Visit(p, keys) == r;
        EnterBootsExactly(p, keys[0], r.candidate);
        assert keys[..0] == [] && Visit(p, keys[..0]) == p;
        assert ChosenAt(p, keys, 0);
      }
    }
  }

  // ------------------------------------------------------ which keys fill the buffer

  /** A visit, one key longer. */
  lemma {:induction false} VisitLast(p: BootPage, keys: seq<Key>)
    requires keys != []
    ensures var r := Visit(p, keys[..|keys| - 1]);
            Visit(p, keys) == if r.state == BOOT_WAIT then PressKey(r, keys[|keys| - 1]) else r
    decreases |keys|
  {
    hide PressKey;
    if |keys| == 1 {
      assert keys[1..] == [] && keys[..0] == [];
    } else if p.state == BOOT_WAIT {
      VisitLast(PressKey(p, keys[0]), keys[1..]);
      assert keys[..|keys| - 1][1..] == keys[1..][..|keys| - 2] && keys[..|keys| - 1][0] == keys[0];
    }
  }

  /** A digit that a buffer with h digits takes. */
  predicate Accepted(h: nat, k: Key) {
    DigitKey(k) && h < MAX_DIGITS && (h == 0 ==> k.unicode != '0' as int)
  }

  /** Backspace takes the last accepted digit away again, and nothing else. */
  lemma BackspaceUndoes(p: BootPage, k: Key, scan: Char16)
    requires p.state == BOOT_WAIT && Accepted(|p.input|, k)
    ensures PressKey(p, k) != p && PressKey(PressKey(p, k), Key(8, scan)) == p
  {
    assert (p.input + [k.unicode as char])[..|p.input|] == p.input;
  }

  /** A digit is refused exactly as a leading zero or after five digits, as many as 65536 has. */
  lemma FiveDigits(p: BootPage, k: Key)
    requires p.state == BOOT_WAIT && DigitKey(k)
    ensures PressKey(p, k) == p <==> |p.input| >= 5 || (p.input == "" && k.unicode == '0' as int)
    ensures |Decimal(0x1_0000)| == 5
  {
    DecimalShort(0x1_0000);
  }

  /** How many digits a sequence of keys leaves in an empty buffer. */
  function Height(keys: seq<Key>): nat {
    if keys == [] then 0
    else
      var h, k := Height(keys[..|keys| - 1]), keys[|keys| - 1];
      if k.unicode == CHAR_CARRIAGE_RETURN then 0
      else if k.unicode == CHAR_BACKSPACE then (if h == 0 then 0 else h - 1)
      else if Accepted(h, k) then h + 1
      else h
  }

  /** Key i is the digit c, accepted at place h, that no later key has taken away. */
  ghost predicate Kept(keys: seq<Key>, i: nat, h: nat, c: char) {
    && i < |keys| && keys[i].unicode == c as int && Height(keys[..i]) == h && Accepted(h, keys[i])
    && forall j :: i < j <= |keys| ==> Height(keys[..j]) > h
  }

  lemma KeptGrows(keys: seq<Key>, i: nat, h: nat, c: char)
    requires keys != [] && Kept(keys[..|keys| - 1], i, h, c) && Height(keys) > h
    ensures Kept(keys, i, h, c)
  {
    hide Height, Accepted;
    var front := keys[..|keys| - 1];
    assert keys[..|keys|] == keys && front[..i] == keys[..i];
    forall j | i < j <= |keys| ensures Height(keys[..j]) > h {
      if j < |keys| {
        assert front[..j] == keys[..j];
      }
    }
  }

  lemma KeptNow(keys: seq<Key>)
    requires keys != [] && Accepted(Height(keys[..|keys| - 1]), keys[|keys| - 1])
    ensures Kept(keys, |keys| - 1, Height(keys[..|keys| - 1]), keys[|keys| - 1].unicode as char)
  {
    assert keys[..|keys|] == keys;
  }

  ghost predicate KeptAt(keys: seq<Key>, h: nat, c: char) {
    exists i: nat :: Kept(keys, i, h, c)
  }

  /** Each digit of the buffer is the key that was kept at its place. */
  ghost predicate HoldsKept(input: string, keys: seq<Key>) {
    |input| == Height(keys)
    && forall h :: 0 <= h < |input| ==> KeptAt(keys, h, input[h])
  }

  /**
   Over every key sequence that does not leave the page, the buffer is exactly the accepted
   digits that no later backspace or Enter has taken away, in their order.
   */
  lemma {:induction false} BufferIsKept(p: BootPage, keys: seq<Key>)
    requires p.state == BOOT_WAIT && p.input == "" && Visit(p, keys).state == BOOT_WAIT
    ensures HoldsKept(Visit(p, keys).input, keys) && Visit(p, keys) == p.(input := Visit(p, keys).input)
    decreases |keys|
  {
    hide Visit, PressKey, Height, HoldsKept;
    if keys == [] {
      NoKeys(p);
    } else {
      var front := keys[..|keys| - 1];
      VisitLast(p, keys);
      BufferIsKept(p, front);
      KeyKept(Visit(p, front), keys);
    }
  }

  lemma NoKeys(p: BootPage)
    ensures Visit(p, []) == p && HoldsKept("", [])
  {}

  lemma HeightLast(keys: seq<Key>)
    requires keys != []
    ensures var h, k := Height(keys[..|keys| - 1]), keys[|keys| - 1];
            Height(keys) == if k.unicode == CHAR_CARRIAGE_RETURN then 0
                            else if k.unicode == CHAR_BACKSPACE then if h == 0 then 0 else h - 1
                            else if Accepted(h, k) then h + 1 else h
  {}

  /** One more key. */
  lemma KeyKept(r: BootPage, keys: seq<Key>)
    requires keys != [] && r.state == BOOT_WAIT && HoldsKept(r.input, keys[..|keys| - 1])
    requires PressKey(r, keys[|keys| - 1]).state == BOOT_WAIT
    ensures var q := PressKey(r, keys[|keys| - 1]);
            HoldsKept(q.input, keys) && q == r.(input := q.input)
  {
    hide Height, Selection;
    var front, k := keys[..|keys| - 1], keys[|keys| - 1];
    var input := PressKey(r, k).input;
    HeightLast(keys);
    forall h | 0 <= h < |input| ensures KeptAt(keys, h, input[h]) {
      if h < |r.input| {
        var i: nat :| Kept(front, i, h, r.input[h]);
        KeptGrows(keys, i, h, r.input[h]);
        assert input[h] == r.input[h];
      } else {
        KeptNow(keys);
        assert input[h] == k.unicode as char;
      }
    }
    assert HoldsKept(input, keys);
  }

  /** The keys of a digit string. */
  function Typed(s: string): seq<Key>
    requires forall c <- s :: IsDigit(c)
  {
    seq(|s|, i requires 0 <= i < |s| => assert IsDigit(s[i]); Key(s[i] as int, 0))
  }

  lemma {:induction false} TypingFills(p: BootPage, s: string)
    requires p.state == BOOT_WAIT && p.input == "" && GoodInput(s)
    ensures Visit(p, Typed(s)) == p.(input := s)
    decreases |s|
  {
    hide Visit, PressKey;
    if s == "" {
      NoKeys(p);
      assert Typed(s) == [];
    } else {
      var front, keys := s[..|s| - 1], Typed(s);
      TypingFills(p, front);
      assert keys[..|keys| - 1] == Typed(front);
      VisitLast(p, keys);
      DigitAppends(p.(input := front), s[|s| - 1]);
      assert front + [s[|s| - 1]] == s;
    }
  }

  lemma DigitAppends(p: BootPage, c: char)
    requires IsDigit(c) && |p.input| < MAX_DIGITS && (p.input == "" ==> c != '0')
    ensures PressKey(p, Key(c as int, 0)) == p.(input := p.input + [c])
  {}

  lemma KeyNameGood(i: nat)
    requires i < 99999
    ensures GoodInput(KeyName(i)) && KeyName(i) != "" && KeyName(i) == Decimal(i + 1)
  {
    hide Decimal;
    DecimalShort(i + 1);
    DecimalRoundTrip(i + 1);
  }

  /** Typing the printed key name of an option into an empty buffer and Enter boots that option. */
  lemma TypedBoots(p: BootPage, i: nat)
    requires p.state == BOOT_WAIT && p.input == "" && i < p.optionCount <= 0x1_0000
    ensures Visit(p, Typed(KeyName(i)) + [Key(13, 0)]) == BootPage(BOOT_NOW, p.optionCount, "", i)
  {
    hide Visit, KeyName, Selection, GoodInput;
    var name, enter := KeyName(i), Key(CHAR_CARRIAGE_RETURN, 0);
    var keys := Typed(name) + [enter];
    KeyNameGood(i);
    TypingFills(p, name);
    assert keys[..|keys| - 1] == Typed(name);
    VisitLast(p, keys);
    EnterBootsExactly(p.(input := name), enter, i);
  }

  /** Until Enter the page goes on waiting. */
  lemma TypingWaits(p: BootPage, i: nat)
    requires p.state == BOOT_WAIT && p.input == "" && i < p.optionCount <= 0x1_0000
    ensures var keys := Typed(KeyName(i)) + [Key(CHAR_CARRIAGE_RETURN, 0)];
            forall n :: 0 <= n < |keys| ==> Visit(p, keys[..n]).state == BOOT_WAIT
  {
    hide Visit, KeyName;
    var name := KeyName(i);
    var keys := Typed(name) + [Key(CHAR_CARRIAGE_RETURN, 0)];
    KeyNameGood(i);
    forall n | 0 <= n < |keys| ensures Visit(p, keys[..n]).state == BOOT_WAIT {
      PrefixGood(name, n);
      TypingFills(p, name[..n]);
      assert keys[..n] == Typed(name[..n]);
    }
  }

  lemma PrefixGood(s: string, n: nat)
    requires GoodInput(s) && n <= |s|
    ensures GoodInput(s[..n])
  {
    assert forall c <- s[..n] :: c in s;
    assert n > 0 ==> s[..n][0] == s[0];
  }

  /** The page as the code keeps it: a fixed buffer of digits with a NUL after the last one. */
  class Menu {
    var state: nat
    var optionCount: nat
    var candidate: nat
    const inputBuffer: array<char>
    var inputLen: nat

    ghost predicate Valid()
      reads this, inputBuffer
    {
      inputBuffer.Length == MAX_DIGITS + 1 && inputLen <= MAX_DIGITS && inputBuffer[inputLen] == '\0'
      && GoodInput(inputBuffer[..inputLen])
    }

    ghost function Page(): BootPage
      requires Valid()
      reads this, inputBuffer
    {
      BootPage(state, optionCount, inputBuffer[..inputLen], candidate)
    }

    constructor ()
      ensures Valid() && Page() == CLEARED && fresh(inputBuffer)
    {
      state, optionCount, candidate, inputLen := BOOT_INIT, 0, 0, 0;
      inputBuffer := new char[MAX_DIGITS + 1](_ => '\0');
    }

    /** PrintBootOptions, with the number of boot options the firmware lists. */
    method Open(options: nat)
      requires Valid()
      modifies this
      ensures Valid() && Page() == old(Page()).(state := BOOT_WAIT, optionCount := options)
    {
      optionCount := options;
      state := BOOT_WAIT;
    }

    /** ResetGlobals */
    method Reset()
      requires Valid()
      modifies this, inputBuffer
      ensures Valid() && Page() == CLEARED
    {
      state, optionCount, candidate, inputLen := BOOT_INIT, 0, 0, 0;
      inputBuffer[0] := '\0';
      assert inputBuffer[..inputLen] == "";
    }

    /** The digit-folding loop on Enter. */
    method FoldDigits() returns (n: nat)
      requires Valid()
      ensures n == Selection(inputBuffer[..inputLen])
    {
      n := 0;
      for i := 0 to inputLen
        invariant n == Selection(inputBuffer[..i])
      {
        assert inputBuffer[..i + 1][..i] == inputBuffer[..i];
        assert IsDigit(inputBuffer[..inputLen][i]);
        n := n * 10 + (inputBuffer[i] as int - '0' as int);
      }
    }

    /** One keystroke in the wait state. */
    method OnKey(k: Key)
      requires Valid() && state == BOOT_WAIT
      modifies this, inputBuffer
      ensures Valid() && Page() == PressKey(old(Page()), k)
    {
      hide Selection;
      ghost var was := inputBuffer[..inputLen];
      PressKeyGood(Page(), k);
      if k.scan == SCAN_ESC && k.unicode == CHAR_NULL {
        inputLen := 0;
        inputBuffer[0] := '\0';
        state := BOOT_EXIT;
        assert inputBuffer[..inputLen] == "";
      } else if k.unicode == CHAR_CARRIAGE_RETURN {
        if inputLen > 0 {
          var n := FoldDigits();
          inputLen := 0;
          inputBuffer[0] := '\0';
          if n >= 1 && n <= optionCount {
            candidate := (n - 1) % 0x1_0000;
            state := BOOT_NOW;
          }
          assert inputBuffer[..inputLen] == "";
        }
      } else if k.unicode == CHAR_BACKSPACE {
        if inputLen > 0 {
          inputLen := inputLen - 1;
          inputBuffer[inputLen] := '\0';
          assert inputBuffer[..inputLen] == was[..|was| - 1];
        }
      } else if DigitKey(k) {
        if !(inputLen == 0 && k.unicode == '0' as int) {
          if inputLen < MAX_DIGITS {
            inputBuffer[inputLen] := k.unicode as char;
            inputLen := inputLen + 1;
            inputBuffer[inputLen] := '\0';
            assert inputBuffer[..inputLen] == was + [k.unicode as char];
          }
        }
      }
    }
  }
}
