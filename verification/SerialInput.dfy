/**
 The resizable buffer that collects the characters received on the serial port, and the
 payloads that a carriage return or a line feed ends.
 */
module SerialInput {
  import opened Bytes
  import opened VarList

  const EFI_PAGE_SIZE: nat := 0x1000
  const CHAR_CARRIAGE_RETURN: Char16 := 13
  const CHAR_LINEFEED: Char16 := 10

  predicate Terminator(c: Char16) {
    c == CHAR_CARRIAGE_RETURN || c == CHAR_LINEFEED
  }

  /** The characters in the buffer; none if it is not allocated. */
  function Text(received: Option<seq<Char16>>): seq<Char16> {
    if received.Some? then received.value else []
  }

  /** The buffer after one more character: a terminator is stored as NUL. */
  function Stored(received: Option<seq<Char16>>, c: Char16): seq<Char16> {
    Text(received) + [if Terminator(c) then 0 else c]
  }

  /** What a run of characters has handed over so far, and what is in the buffer (None: not allocated). */
  datatype Intake = Intake(payloads: seq<seq<Char16>>, received: Option<seq<Char16>>)

  /** One character when no payload parses: a terminator hands the text over and drops the buffer. */
  function Take(st: Intake, c: Char16): Intake {
    var text := Stored(st.received, c);
    if Terminator(c) then Intake(st.payloads + [text[..|text| - 1]], None) else Intake(st.payloads, Some(text))
  }

  function TakeAll(st: Intake, chars: seq<Char16>): Intake {
    if chars == [] then st else Take(TakeAll(st, chars[..|chars| - 1]), chars[|chars| - 1])
  }

  /** A run cut at its terminators: the texts between them, and the text after the last one. */
  function Cut(chars: seq<Char16>): (r: (seq<seq<Char16>>, seq<Char16>))
    ensures forall i :: 0 <= i < |r.0| ==> !exists c <- r.0[i] :: Terminator(c)
    ensures !exists c <- r.1 :: Terminator(c)
  {
    if chars == [] then ([], [])
    else
      var r, c := Cut(chars[..|chars| - 1]), chars[|chars| - 1];
      if Terminator(c) then (r.0 + [r.1], []) else (r.0, r.1 + [c])
  }

  /** Texts and their terminators put together again. */
  function Uncut(texts: seq<seq<Char16>>, ends: seq<Char16>, rest: seq<Char16>): seq<Char16>
    requires |texts| == |ends|
  {
    if texts == [] then rest else texts[0] + [ends[0]] + Uncut(texts[1..], ends[1..], rest)
  }

  lemma {:induction false} UncutAppend(texts: seq<seq<Char16>>, ends: seq<Char16>, rest: seq<Char16>, c: Char16,
                                       more: seq<Char16>)
    requires |texts| == |ends|
    ensures Uncut(texts + [rest], ends + [c], more) == Uncut(texts, ends, rest) + [c] + more
  {
    if texts == [] {
      assert [rest][1..] == [] && [c][1..] == [];
      assert texts + [rest] == [rest] && ends + [c] == [c];
    } else {
      UncutAppend(texts[1..], ends[1..], rest, c, more);
      assert (texts + [rest])[1..] == texts[1..] + [rest] && (ends + [c])[1..] == ends[1..] + [c];
      assert texts[0] + [ends[0]] + (Uncut(texts[1..], ends[1..], rest) + [c] + more)
          == texts[0] + [ends[0]] + Uncut(texts[1..], ends[1..], rest) + [c] + more;
    }
  }

  lemma {:induction false} UncutGrows(texts: seq<seq<Char16>>, ends: seq<Char16>, rest: seq<Char16>, c: Char16)
    requires |texts| == |ends|
    ensures Uncut(texts, ends, rest + [c]) == Uncut(texts, ends, rest) + [c]
  {
    if texts != [] {
      UncutGrows(texts[1..], ends[1..], rest, c);
    }
  }

  /** Cutting loses, adds and reorders nothing. */
  lemma {:induction false} UncutCut(chars: seq<Char16>) returns (ends: seq<Char16>)
    ensures |ends| == |Cut(chars).0| && forall c <- ends :: Terminator(c)
    ensures chars == Uncut(Cut(chars).0, ends, Cut(chars).1)
    decreases |chars|
  {
    hide Uncut;
    if chars == [] {
      ends := [];
      assert Uncut([], [], []) == [] by { UncutNone(); }
    } else {
      var front, c := chars[..|chars| - 1], chars[|chars| - 1];
      ends := UncutCut(front);
      assert chars == front + [c];
      if Terminator(c) {
        UncutAppend(Cut(front).0, ends, Cut(front).1, c, []);
        ends := ends + [c];
      } else {
        UncutGrows(Cut(front).0, ends, Cut(front).1, c);
      }
    }
  }

  lemma UncutNone()
    ensures Uncut([], [], []) == []
  {}

  /** Over every run, the payloads handed over and the text in the buffer are the run cut at its terminators. */
  lemma {:induction false} IntakeIsCut(chars: seq<Char16>)
    ensures var st := TakeAll(Intake([], None), chars);
            (st.payloads, Text(st.received)) == Cut(chars)
    decreases |chars|
  {
    if chars != [] {
      var front, c := chars[..|chars| - 1], chars[|chars| - 1];
      IntakeIsCut(front);
      var text := Text(TakeAll(Intake([], None), front).received);
      assert (text + [0])[..|text|] == text;
    }
  }

  class SerialBuffer {
    var buffer: array?<Char16>
    var offset: nat
    var size: nat

    ghost predicate Valid()
      reads this
    {
      buffer != null ==> size == buffer.Length && size >= EFI_PAGE_SIZE && 2 * offset <= size
    }

    /** The characters received since the buffer was last allocated. */
    ghost function Received(): Option<seq<Char16>>
      requires Valid()
      reads this, buffer
    {
      if buffer == null then None else Some(buffer[..offset])
    }

    constructor ()
      ensures Valid() && buffer == null
    {
      buffer, offset, size := null, 0, 0;
    }

    /** Allocate the first page, or double the buffer once it is half full; ok is the boundary test. */
    method Reserve() returns (ok: bool)
      requires Valid()
      modifies this
      ensures ok && Valid() && buffer != null && offset < size / 2
      ensures Received() == Some(Text(old(Received())))
      ensures buffer == old(buffer) || fresh(buffer)
    {
      ok := true;
      ghost var was := Text(Received());
      if buffer == null {
        size := EFI_PAGE_SIZE;
        buffer := new Char16[size](_ => 0);
        offset := 0;
      } else if offset >= size / 2 {
        var bigger := new Char16[2 * size](_ => 0);
        for i := 0 to size
          invariant unchanged(this) && buffer != null && buffer.Length == size
          invariant forall j :: 0 <= j < i ==> bigger[j] == buffer[j]
        invariant buffer[..offset] == was
        {
          bigger[i] := buffer[i];
        }
        buffer := bigger;
        size := size * 2;
        if size <= offset {
          ok := false;
        }
      }
      assert buffer[..offset] == was;
    }

    /**
     One received character; every store is below the size. A terminator is stored as NUL and
     completes the payload.
     */
    method Put(c: Char16) returns (ok: bool, complete: bool)
      requires Valid()
      modifies this, buffer
      ensures ok && Valid() && complete == Terminator(c) && Received() == Some(Stored(old(Received()), c))
      ensures buffer == old(buffer) || fresh(buffer)
    {
      ghost var was := Text(Received());
      ok := Reserve();
      assert buffer[..offset] == was;
      complete := c == CHAR_CARRIAGE_RETURN || c == CHAR_LINEFEED;
      buffer[offset] := if complete then 0 else c;
      offset := offset + 1;
      assert buffer[..offset] == was + [if complete then 0 else c];
    }

    /** The cleanup after a payload that did not parse. */
    method Drop()
      modifies this
      ensures Valid() && Received() == None
    {
      buffer := null;
    }

    /** The globals when the setup page is left. */
    method Reset()
      modifies this
      ensures Valid() && Received() == None
    {
      buffer, offset, size := null, 0, 0;
    }

    /** One character when no payload parses: a completed payload is handed over and the buffer dropped. */
    method TakeOne(payloads: seq<seq<Char16>>, c: Char16) returns (handed: seq<seq<Char16>>)
      requires Valid()
      modifies this, buffer
      ensures Valid() && Intake(handed, Received()) == Take(Intake(payloads, old(Received())), c)
      ensures buffer == null || buffer == old(buffer) || fresh(buffer)
    {
      ghost var was := Received();
      handed := payloads;
      var _, complete := Put(c);
      if complete {
        handed := handed + [buffer[..offset - 1]];
        assert buffer[..offset - 1] == Stored(was, c)[..offset - 1];
        Drop();
      }
    }

    /** A run of characters none of whose payloads parses: the payloads handed over, and the text left in the buffer. */
    method Receive(chars: seq<Char16>) returns (payloads: seq<seq<Char16>>)
      requires Valid()
      modifies this, buffer
      ensures Valid() && Intake(payloads, Received()) == TakeAll(Intake([], old(Received())), chars)
    {
      hide Take;
      payloads := [];
      for i := 0 to |chars|
        invariant Valid() && Intake(payloads, Received()) == TakeAll(Intake([], old(Received())), chars[..i])
        invariant buffer == null || buffer == old(buffer) || fresh(buffer)
      {
        assert chars[..i + 1][..i] == chars[..i];
        payloads := TakeOne(payloads, chars[i]);
      }
      assert chars[..|chars|] == chars;
    }
  }
}
