/** The streaming JSON scanner's two hardest tokens. Its reader delivers one byte at a time and
    takes one byte back; captured text leaves in bounded fragments. */
module JsonScanner {
  import opened Options
  import opened Bytes
  import opened Surrogates
  import opened Utf8
  import Numbers = JsonNumbers
  import Strings = JsonStrings

  const MAX_FRAGMENT_BYTES := 16 * 1024
  const MAX_KEY_BYTES := 4096

  /** Captured text leaves in pieces that are bounded, not empty, and cut between characters. */
  ghost predicate Fragments(fragments: seq<seq<byte>>) {
    forall i :: 0 <= i < |fragments| ==> 0 < |fragments[i]| <= MAX_FRAGMENT_BYTES && WellFormed(fragments[i])
  }

  /** `text` has been captured: part of it is in fragments, the rest still open. */
  ghost predicate Captured(fragments: seq<seq<byte>>, open: seq<byte>, text: seq<byte>) {
    Fragments(fragments) && |open| <= MAX_FRAGMENT_BYTES && WellFormed(open) && Concat(fragments) + open == text
  }

  lemma NothingCaptured(fragments: seq<seq<byte>>)
    requires fragments == []
    ensures Captured(fragments, [], [])
  {
    assert EncodeAll([]) == [] && Concat<byte>([]) == [];
  }

  lemma CapturedFlush(fragments: seq<seq<byte>>, open: seq<byte>, text: seq<byte>)
    requires Captured(fragments, open, text) && open != []
    ensures Captured(fragments + [open], [], text)
  {
    assert EncodeAll([]) == [];
    assert WellFormed([]);
    hide WellFormed;
    ConcatPush(fragments, open);
    assert text + [] == text;
  }

  lemma CapturedAppend(fragments: seq<seq<byte>>, open: seq<byte>, text: seq<byte>, more: seq<byte>)
    requires Captured(fragments, open, text) && |open| + |more| <= MAX_FRAGMENT_BYTES && WellFormed(more)
    ensures Captured(fragments, open + more, text + more)
  {
    hide WellFormed;
    WellFormedAppend(open, more);
    assert Concat(fragments) + (open + more) == Concat(fragments) + open + more;
  }

  lemma EncodingIsWellFormed(c: Scalar)
    ensures WellFormed(Encode(c))
  {
    assert [c][..0] == [];
    assert EncodeAll([c]) == Encode(c);
  }

  /** What the number automaton accepts is encoded in one byte. */
  lemma AcceptedIsWellFormed(state: Numbers.State, b: byte)
    requires Numbers.Step(state, b) != Numbers.Stuck
    ensures WellFormed([b])
  {
    hide WellFormed;
    assert b < 0x80 && Encode(b) == [b];
    EncodingIsWellFormed(b);
  }

  method Flush(fragments: seq<seq<byte>>, fragment: seq<byte>, ghost text: seq<byte>) returns (fragments': seq<seq<byte>>)
    requires Captured(fragments, fragment, text)
    ensures Fragments(fragments') && Concat(fragments') == text
  {
    fragments' := fragments;
    if fragment != [] {
      CapturedFlush(fragments, fragment, text);
      fragments' := fragments + [fragment];
    }
    assert Concat(fragments') + [] == Concat(fragments');
  }

  /** Whole characters go into a fragment while they fit. */
  method Append(fragments: seq<seq<byte>>, fragment: seq<byte>, more: seq<byte>, ghost text: seq<byte>)
    returns (fragments': seq<seq<byte>>, fragment': seq<byte>)
    requires Captured(fragments, fragment, text) && 1 <= |more| <= 4 && WellFormed(more)
    ensures Captured(fragments', fragment', text + more)
  {
    hide Fragments, Concat, WellFormed;
    fragments', fragment' := fragments, fragment;
    if |fragment'| + |more| > MAX_FRAGMENT_BYTES {
      CapturedFlush(fragments', fragment', text);
      fragments', fragment' := fragments' + [fragment'], [];
    }
    CapturedAppend(fragments', fragment', text, more);
    fragment' := fragment' + more;
    if |fragment'| == MAX_FRAGMENT_BYTES {
      CapturedFlush(fragments', fragment', text + more);
      fragments', fragment' := fragments' + [fragment'], [];
    }
  }

  class JsonParser {
    const input: seq<byte>
    var offset: nat
    var pending: Option<byte>
    var spool: seq<seq<byte>>

    ghost predicate Valid()
      reads this
    {
      offset <= |input| && (pending.Some? ==> offset > 0 && pending.value == input[offset - 1])
    }

    /** Where the scanner logically stands. */
    ghost function Pos(): (p: nat)
      requires Valid()
      reads this
      ensures p <= |input|
    {
      if pending.Some? then offset - 1 else offset
    }

    constructor (input: seq<byte>)
      ensures Valid() && this.input == input && Pos() == 0 && spool == []
    {
      this.input, offset, pending, spool := input, 0, None, [];
    }

    method ReadByte() returns (b: Option<byte>)
      requires Valid()
      modifies this`offset, this`pending
      ensures Valid() && pending.None?
      ensures b.None? ==> Pos() == old(Pos()) == |input|
      ensures b.Some? ==> old(Pos()) < |input| && b.value == input[old(Pos())] && Pos() == old(Pos()) + 1
    {
      if pending.Some? {
        b := pending;
        pending := None;
        return;
      }
      if offset == |input| {
        return None;
      }
      b := Some(input[offset]);
      offset := offset + 1;
    }

    method UnreadByte(b: byte)
      requires Valid() && pending.None? && 0 < offset && b == input[offset - 1]
      modifies this`pending
      ensures Valid() && Pos() == old(Pos()) - 1
    {
      pending := Some(b);
    }

    // -------------------------------------------------------------- numbers

    ghost predicate Stands(start: nat, state: Numbers.State, ahead: Option<byte>)
      reads this
    {
      Valid() && pending.None? && At(input, offset, start, state, ahead)
    }

    /** Captured since `base`, when capturing at all. */
    ghost predicate Holds(base: seq<seq<byte>>, capture: bool, fragment: seq<byte>, text: seq<byte>)
      reads this`spool
    {
      if capture then base <= spool && Captured(spool[|base|..], fragment, text) else spool == base
    }

    lemma HoldsNothing(base: seq<seq<byte>>, capture: bool)
      requires spool == base
      ensures Holds(base, capture, [], [])
    {
      NothingCaptured(spool[|base|..]);
    }

    method CaptureNumberByte(capture: bool, fragment: seq<byte>, b: byte, ghost base: seq<seq<byte>>, ghost text: seq<byte>)
      returns (fragment': seq<byte>)
      requires Holds(base, capture, fragment, text) && WellFormed([b])
      modifies this`spool
      ensures Holds(base, capture, fragment', text + [b])
    {
      hide WellFormed, Fragments, Concat;
      fragment' := fragment;
      if !capture {
        return;
      }
      if |fragment'| == MAX_FRAGMENT_BYTES {
        CapturedFlush(spool[|base|..], fragment', text);
        assert (spool + [fragment'])[|base|..] == spool[|base|..] + [fragment'];
        spool := spool + [fragment'];
        fragment' := [];
      }
      CapturedAppend(spool[|base|..], fragment', text, [b]);
      fragment' := fragment' + [b];
    }

    method FinishNumberCapture(capture: bool, fragment: seq<byte>, ghost base: seq<seq<byte>>, ghost text: seq<byte>)
      requires Holds(base, capture, fragment, text)
      modifies this`spool
      ensures Holds(base, capture, [], text)
    {
      if capture && fragment != [] {
        CapturedFlush(spool[|base|..], fragment, text);
        assert (spool + [fragment])[|base|..] == spool[|base|..] + [fragment];
        spool := spool + [fragment];
      }
    }

    /** Takes in the byte ahead, which the automaton accepts, and reads the next. */
    method Advance(capture: bool, fragment: seq<byte>, b: byte, ghost base: seq<seq<byte>>, ghost start: nat, ghost state: Numbers.State)
      returns (ahead: Option<byte>, fragment': seq<byte>)
      requires Stands(start, state, Some(b)) && Numbers.Step(state, b) != Numbers.Stuck
      requires Holds(base, capture, fragment, input[start..offset - 1])
      modifies this`offset, this`pending, this`spool
      ensures Stands(start, Numbers.Step(state, b), ahead) && offset == old(offset) + if ahead.Some? then 1 else 0
      ensures Holds(base, capture, fragment', input[start..End(offset, ahead)])
    {
      hide Holds, Numbers.Run, Numbers.Step, WellFormed;
      AcceptedIsWellFormed(state, b);
      NextState(input, offset, start, state, b);
      assert input[start..offset] == input[start..offset - 1] + [b];
      fragment' := CaptureNumberByte(capture, fragment, b, base, input[start..offset - 1]);
      ahead := ReadByte();
    }

    method ReadDigits(capture: bool, fragment: seq<byte>, ahead: Option<byte>, ghost base: seq<seq<byte>>, ghost start: nat, ghost state: Numbers.State)
      returns (ahead': Option<byte>, fragment': seq<byte>)
      requires state == Numbers.Int || state == Numbers.Frac || state == Numbers.Exp
      requires Stands(start, state, ahead) && Holds(base, capture, fragment, input[start..End(offset, ahead)])
      modifies this`offset, this`pending, this`spool
      ensures Stands(start, state, ahead') && Holds(base, capture, fragment', input[start..End(offset, ahead')])
      ensures ahead'.Some? ==> !Numbers.IsDigit(ahead'.value)
    {
      ahead', fragment' := ahead, fragment;
      while ahead'.Some? && Numbers.IsDigit(ahead'.value)
        invariant Stands(start, state, ahead') && Holds(base, capture, fragment', input[start..End(offset, ahead')])
        decreases |input| - offset, ahead'.Some?
      {
        hide Holds, Numbers.Run, At, End;
        ahead', fragment' := Advance(capture, fragment', ahead'.value, base, start, state);
      }
    }

    method ParseInt(capture: bool, first: byte, ghost base: seq<seq<byte>>, ghost start: nat)
      returns (ok: bool, ahead: Option<byte>, fragment: seq<byte>, ghost state: Numbers.State)
      requires Stands(start, Numbers.Start, Some(first)) && spool == base
      modifies this`offset, this`pending, this`spool
      ensures Valid()
      ensures !ok ==> NoNumber(input, start)
      ensures ok ==> && (state == Numbers.Zero || state == Numbers.Int) && Stands(start, state, ahead)
                     && (ahead.Some? ==> !Numbers.IsDigit(ahead.value))
                     && Holds(base, capture, fragment, input[start..End(offset, ahead)])
    {
      hide Holds, Numbers.Run, NoNumber, At, Numbers.IsTerminator, Numbers.Step;
      StartIsEmpty(input, offset, start, first);
      HoldsNothing(base, capture);
      state, ok := Numbers.Start, false;
      ahead, fragment := Some(first), [];
      FirstStep();
      var b := first;
      if b == Numbers.MINUS {
        ahead, fragment := Advance(capture, fragment, b, base, start, state);
        state := Numbers.Minus;
        if ahead.None? || !Numbers.IsDigit(ahead.value) {
          Decides(input, offset, start, state, ahead);
          return;
        }
        b := ahead.value;
      }
      if b == Numbers.ZERO {
        ahead, fragment := Advance(capture, fragment, b, base, start, state);
        state := Numbers.Zero;
        if ahead.Some? && Numbers.IsDigit(ahead.value) {
          Decides(input, offset, start, state, ahead);
          return;
        }
      } else if Numbers.IsDigit(b) {
        ahead, fragment := Advance(capture, fragment, b, base, start, state);
        state := Numbers.Int;
        ahead, fragment := ReadDigits(capture, fragment, ahead, base, start, state);
      } else {
        Decides(input, offset, start, state, ahead);
        return;
      }
      ok := true;
    }

    method ParseFrac(capture: bool, fragment: seq<byte>, ahead: Option<byte>, ghost base: seq<seq<byte>>, ghost start: nat, ghost state: Numbers.State)
      returns (ok: bool, ahead': Option<byte>, fragment': seq<byte>, ghost state': Numbers.State)
      requires (state == Numbers.Zero || state == Numbers.Int) && Stands(start, state, ahead)
      requires ahead.Some? ==> !Numbers.IsDigit(ahead.value)
      requires Holds(base, capture, fragment, input[start..End(offset, ahead)])
      modifies this`offset, this`pending, this`spool
      ensures Valid()
      ensures !ok ==> NoNumber(input, start)
      ensures ok ==> && (state' == Numbers.Zero || state' == Numbers.Int || state' == Numbers.Frac) && Stands(start, state', ahead')
                     && (ahead'.Some? ==> !Numbers.IsDigit(ahead'.value) && (state' != Numbers.Frac ==> ahead'.value != Numbers.DOT))
                     && Holds(base, capture, fragment', input[start..End(offset, ahead')])
    {
      hide Holds, Numbers.Run, NoNumber, At, Numbers.IsTerminator;
      ok, ahead', fragment', state' := true, ahead, fragment, state;
      if ahead.Some? && ahead.value == Numbers.DOT {
        ahead', fragment' := Advance(capture, fragment, ahead.value, base, start, state);
        state' := Numbers.Dot;
        if ahead'.None? || !Numbers.IsDigit(ahead'.value) {
          Decides(input, offset, start, state', ahead');
          ok := false;
          return;
        }
        ahead', fragment' := Advance(capture, fragment', ahead'.value, base, start, state');
        state' := Numbers.Frac;
        ahead', fragment' := ReadDigits(capture, fragment', ahead', base, start, state');
      }
    }

    method ParseExp(capture: bool, fragment: seq<byte>, ahead: Option<byte>, ghost base: seq<seq<byte>>, ghost start: nat, ghost state: Numbers.State)
      returns (ok: bool, ahead': Option<byte>, fragment': seq<byte>, ghost state': Numbers.State)
      requires (state == Numbers.Zero || state == Numbers.Int || state == Numbers.Frac) && Stands(start, state, ahead)
      requires ahead.Some? ==> !Numbers.IsDigit(ahead.value) && (state != Numbers.Frac ==> ahead.value != Numbers.DOT)
      requires Holds(base, capture, fragment, input[start..End(offset, ahead)])
      modifies this`offset, this`pending, this`spool
      ensures Valid()
      ensures !ok ==> NoNumber(input, start)
      ensures ok ==> && Numbers.Final(state') && Stands(start, state', ahead')
                     && (ahead'.Some? ==> Numbers.Step(state', ahead'.value) == Numbers.Stuck)
                     && Holds(base, capture, fragment', input[start..End(offset, ahead')])
    {
      hide Holds, Numbers.Run, NoNumber, At, Numbers.IsTerminator;
      ok, ahead', fragment', state' := true, ahead, fragment, state;
      if ahead.Some? && Numbers.IsMark(ahead.value) {
        ahead', fragment' := Advance(capture, fragment, ahead.value, base, start, state);
        state' := Numbers.Mark;
        if ahead'.Some? && Numbers.IsSign(ahead'.value) {
          ahead', fragment' := Advance(capture, fragment', ahead'.value, base, start, state');
          state' := Numbers.Sign;
        }
        if ahead'.None? || !Numbers.IsDigit(ahead'.value) {
          Decides(input, offset, start, state', ahead');
          ok := false;
          return;
        }
        ahead', fragment' := Advance(capture, fragment', ahead'.value, base, start, state');
        state' := Numbers.Exp;
        ahead', fragment' := ReadDigits(capture, fragment', ahead', base, start, state');
      }
    }

    /** Behind a first byte that is not a quotation mark: one character, however spelled. */
    method ReadCharacter(first: byte) returns (c: Option<Scalar>)
      requires Valid() && pending.None? && 0 < offset && input[offset - 1] == first && first != Strings.QUOTE
      modifies this`offset, this`pending
      ensures Valid() && pending.None? && old(offset) <= offset && Took(input, old(offset) - 1, c, offset)
    {
      hide Encode, FromUtf8, Strings.NextEscape, Strings.Quad, Strings.HexDigit;
      ghost var start := offset - 1;
      if first == Strings.BACKSLASH {
        c := ReadEscape();
      } else if first < 0x20 {
        c := None;
      } else if first < 0x80 {
        TookVerbatim(input, start, first);
        c := Some(first);
      } else {
        c := ReadWide(first);
      }
    }

    method ReadEscape() returns (c: Option<Scalar>)
      requires Valid() && pending.None? && 0 < offset && input[offset - 1] == Strings.BACKSLASH
      modifies this`offset, this`pending
      ensures Valid() && pending.None? && old(offset) <= offset && Took(input, old(offset) - 1, c, offset)
    {
      hide Encode, FromUtf8, Strings.Quad, Strings.HexDigit;
      var letter := ReadByte();
      if letter.None? {
        c := None;
      } else if letter.value == Strings.LETTER_U {
        c := DecodeUnicodeEscape();
      } else {
        c := Strings.ShortEscape(letter.value);
      }
    }

    /** The bytes that the first one announces, checked as one sequence. */
    method ReadWide(first: byte) returns (c: Option<Scalar>)
      requires Valid() && pending.None? && 0 < offset && input[offset - 1] == first && first >= 0x80
      modifies this`offset, this`pending
      ensures Valid() && pending.None? && old(offset) <= offset && Took(input, old(offset) - 1, c, offset)
    {
      hide Encode, FromUtf8, Strings.NextEscape;
      ghost var start := offset - 1;
      var width := Width(first);
      if width == 0 {
        return None;
      }
      var raw := [first];
      assert raw == input[start..offset];
      while |raw| < width
        invariant Valid() && pending.None? && |raw| <= width && start + |raw| == offset && raw == input[start..offset]
      {
        var next := ReadByte();
        if next.None? {
          return None;
        }
        raw := raw + [next.value];
      }
      c := FromUtf8(raw);
      TookWide(input, start, raw);
    }

    /** The string from `start` on has been taken with its closing mark, and its text is in the fragments. */
    ghost predicate TookString(start: nat, fragments: seq<seq<byte>>)
      requires start <= |input|
      reads this
    {
      Valid() && pending.None? &&
      match Strings.Parse(input[start..])
      case None => false
      case Some(items) =>
        && Strings.AllItems(items)
        && offset == start + |Strings.Body(items)| + 1
        && Fragments(fragments) && Concat(fragments) == Strings.Value(items)
    }

    /** One character more, of which the first byte has been read; without it there is no string. */
    method DecodeNext(first: byte, fragments: seq<seq<byte>>, fragment: seq<byte>, ghost start: nat, ghost items: seq<Strings.Item>)
      returns (ok: bool, fragments': seq<seq<byte>>, fragment': seq<byte>, ghost items': seq<Strings.Item>)
      requires Valid() && pending.None? && start < offset && first == input[offset - 1] && first != Strings.QUOTE
      requires Decoding(input, start, offset - 1, items, fragments, fragment)
      modifies this`offset, this`pending
      ensures Valid() && pending.None? && old(offset) <= offset
      ensures !ok ==> Strings.Parse(input[start..]).None?
      ensures ok ==> Decoding(input, start, offset, items', fragments', fragment')
    {
      ghost var at := offset - 1;
      ok, fragments', fragment', items' := false, fragments, fragment, items;
      hide Captured, Strings.ReadTo, Strings.Parse, Strings.AllItems, Strings.Value, Encode, Took;
      var c := ReadCharacter(first);
      items' := DecodingNext(input, start, at, items, c, offset);
      if c.Some? {
        EncodingIsWellFormed(c.value);
        fragments', fragment' := Append(fragments, fragment, Encode(c.value), Strings.Value(items));
        ok := true;
      }
    }

    /** Behind the opening mark: the string's text in fragments, or a refusal. */
    method DecodeString() returns (ok: bool, fragments: seq<seq<byte>>)
      requires Valid() && pending.None?
      modifies this`offset, this`pending
      ensures Valid()
      ensures !ok ==> Strings.Parse(input[old(offset)..]).None?
      ensures ok ==> TookString(old(offset), fragments)
    {
      hide Decoding, Strings.Parse;
      ghost var start := offset;
      ghost var items: seq<Strings.Item> := [];
      var fragment: seq<byte> := [];
      ok, fragments := true, [];
      DecodingStarts(input, start);
      while true
        invariant Valid() && pending.None? && start <= offset && Decoding(input, start, offset, items, fragments, fragment)
        decreases |input| - offset
      {
        var b := ReadByte();
        if b.None? {
          DecodingStops(input, start, items, fragments, fragment);
          return false, fragments;
        }
        if b.value == Strings.QUOTE {
          fragments := EndString(fragments, fragment, start, items);
          return;
        }
        ok, fragments, fragment, items := DecodeNext(b.value, fragments, fragment, start, items);
        if !ok {
          return;
        }
      }
    }

    method EndString(fragments: seq<seq<byte>>, fragment: seq<byte>, ghost start: nat, ghost items: seq<Strings.Item>)
      returns (fragments': seq<seq<byte>>)
      requires Valid() && pending.None? && start < offset && input[offset - 1] == Strings.QUOTE
      requires Decoding(input, start, offset - 1, items, fragments, fragment)
      ensures TookString(start, fragments')
    {
      ghost var s := input[start..];
      Strings.ReadEnd(s, items, offset - 1 - start);
      EndOfBody(s, items, offset - 1 - start);
      hide Strings.Parse, Strings.Body, Strings.AllItems, Strings.Value, Captured;
      fragments' := Flush(fragments, fragment, Strings.Value(items));
    }

    /** Capturing a string's text. */
    method ParseStringCapture() returns (ok: bool)
      requires Valid() && pending.None?
      modifies this`offset, this`pending, this`spool
      ensures Valid()
      ensures ok <==> Strings.Parse(input[old(offset)..]).Some?
      ensures ok ==> old(spool) <= spool && TookString(old(offset), spool[|old(spool)|..])
    {
      hide Strings.Parse;
      var fragments;
      ok, fragments := DecodeString();
      if ok {
        spool := spool + fragments;
        assert spool[|old(spool)|..] == fragments;
      }
    }

    /** An object key; one that is too long is read but not kept. */
    method ParseKey() returns (ok: bool, key: Option<seq<byte>>)
      requires Valid() && pending.None?
      modifies this`offset, this`pending
      ensures Valid()
      ensures ok <==> Strings.Parse(input[old(offset)..]).Some?
      ensures ok ==>
        var items := Strings.Parse(input[old(offset)..]).value;
        && Strings.AllItems(items) && Pos() == old(offset) + |Strings.Body(items)| + 1
        && key == if |Strings.Value(items)| <= MAX_KEY_BYTES then Some(Strings.Value(items)) else None
    {
      hide Strings.Parse, Strings.Value, Strings.Body, Strings.AllItems;
      var fragments;
      ok, fragments := DecodeString();
      key := None;
      if ok {
        key := KeyOf(fragments);
      }
    }

    /** Skipping a string. */
    method ParseStringDiscard() returns (ok: bool)
      requires Valid() && pending.None?
      modifies this`offset, this`pending
      ensures Valid()
      ensures ok <==> Strings.Skip(input[old(offset)..]).Some?
      ensures ok ==> pending.None? && offset == old(offset) + Strings.Skip(input[old(offset)..]).value
    {
      hide Strings.Stride, Strings.Skip;
      ghost var start := offset;
      while true
        invariant Valid() && pending.None? && start <= offset
        invariant Strings.Skip(input[start..]) == Strings.Plus(offset - start, Strings.Skip(input[offset..]))
        decreases |input| - offset
      {
        ghost var p := offset;
        Strings.SkipStep(input[p..]);
        FirstOfRest(input, p);
        var b := ReadByte();
        if b.None? {
          return false;
        }
        if b.value == Strings.QUOTE {
          return true;
        }
        ok := SkipUnit(b.value);
        if !ok {
          return;
        }
        RestOfRest(input, p, offset);
      }
    }

    method SkipUnit(first: byte) returns (ok: bool)
      requires Valid() && pending.None? && 0 < offset && input[offset - 1] == first && first != Strings.QUOTE
      modifies this`offset, this`pending
      ensures Valid() && pending.None? && old(offset) <= offset
      ensures ok <==> Strings.Stride(input[old(offset) - 1..]).Some?
      ensures ok ==> offset == old(offset) - 1 + Strings.Stride(input[old(offset) - 1..]).value
    {
      hide Strings.IsQuad, Strings.Quad;
      ghost var p := offset - 1;
      ok := first >= 0x20;
      if first == Strings.BACKSLASH {
        var letter := ReadByte();
        ok := letter.Some?;
        if ok && letter.value == Strings.LETTER_U {
          assert p + 6 <= |input| ==> input[p..][2..6] == input[p + 2..p + 6];
          var quad := ReadHexQuad();
          ok := quad.Some?;
        }
      }
    }

    /** Behind the first byte of what may be a number. It succeeds just when a number stands there
        that ends with the input or before a byte that may follow it; then it has taken the number,
        no more and no less, and captured it whole. */
    method ParseNumber(first: byte, capture: bool) returns (ok: bool)
      requires Valid() && pending.None? && 0 < offset && input[offset - 1] == first
      modifies this`offset, this`pending, this`spool
      ensures Valid()
      ensures !ok ==> NoNumber(input, old(offset) - 1)
      ensures ok ==> TakenNumber(old(spool), old(offset) - 1, capture)
    {
      ghost var start, base := offset - 1, spool;
      assert Stands(start, Numbers.Start, Some(first)) by {
        assert input[start..offset - 1] == [];
      }
      hide Numbers.Run, Numbers.Step, NoNumber, Holds, At, TakenNumber;
      var ahead, fragment;
      ghost var state;
      ok, ahead, fragment, state := ParseInt(capture, first, base, start);
      if !ok {
        return;
      }
      ok, ahead, fragment, state := ParseFrac(capture, fragment, ahead, base, start, state);
      if !ok {
        return;
      }
      ok, ahead, fragment, state := ParseExp(capture, fragment, ahead, base, start, state);
      if !ok {
        return;
      }
      ok := EndNumber(capture, fragment, ahead, base, start, state);
    }

    ghost predicate TakenNumber(base: seq<seq<byte>>, start: nat, capture: bool)
      reads this
    {
      && Valid() && start <= Pos() && Numbers.NumberAt(input[start..], Pos() - start)
      && (!capture ==> spool == base)
      && (capture ==> base <= spool && Fragments(spool[|base|..]) && Concat(spool[|base|..]) == input[start..Pos()])
    }

    /** A byte beyond the number must be one that may follow it, and is left unread. */
    method EndNumber(capture: bool, fragment: seq<byte>, ahead: Option<byte>, ghost base: seq<seq<byte>>, ghost start: nat, ghost state: Numbers.State)
      returns (ok: bool)
      requires Numbers.Final(state) && Stands(start, state, ahead)
      requires ahead.Some? ==> Numbers.Step(state, ahead.value) == Numbers.Stuck
      requires Holds(base, capture, fragment, input[start..End(offset, ahead)])
      modifies this`offset, this`pending, this`spool
      ensures Valid()
      ensures !ok ==> NoNumber(input, start)
      ensures ok ==> TakenNumber(base, start, capture)
    {
      hide Numbers.Run, Numbers.Step, NoNumber, Numbers.NumberAt, Fragments, Concat;
      Decides(input, offset, start, state, ahead);
      ghost var end := End(offset, ahead);
      if ahead.Some? {
        if !Numbers.IsTerminator(ahead.value) {
          return false;
        }
        UnreadByte(ahead.value);
      }
      FinishNumberCapture(capture, fragment, base, input[start..end]);
      assert capture ==> Concat(spool[|base|..]) + [] == Concat(spool[|base|..]);
      ok := true;
    }

    // -------------------------------------------------------------- strings

    method ReadHexQuad() returns (n: Option<nat>)
      requires Valid() && pending.None?
      modifies this`offset, this`pending
      ensures Valid() && pending.None? && old(offset) <= offset
      ensures n.Some? <==> old(offset) + 4 <= |input| && Strings.IsQuad(input[old(offset)..old(offset) + 4])
      ensures n.Some? ==> offset == old(offset) + 4 && n.value == Strings.Quad(input[old(offset)..offset])
    {
      hide Strings.HexDigit, Strings.Quad, Strings.IsQuad, Strings.Hex, Strings.IsHex;
      ghost var start := offset;
      var value := 0;
      Strings.HexOfNone(input[start..start]);
      for i := 0 to 4
        invariant Valid() && pending.None? && offset == start + i
        invariant Strings.IsHex(input[start..offset]) && value == Strings.Hex(input[start..offset])
      {
        ghost var before := offset;
        Strings.QuadNeeds(input[start..], i);
        var b := ReadByte();
        if b.None? || Strings.HexDigit(b.value).None? {
          assert start + 4 <= |input| ==> input[start..][..4] == input[start..start + 4];
          return None;
        }
        Strings.HexPush(input[start..before], b.value);
        assert input[start..offset] == input[start..before] + [b.value];
        value := value * 16 + Strings.HexDigit(b.value).value;
      }
      Strings.HexIsQuad(input[start..offset]);
      n := Some(value);
    }

    method ExpectByte(expected: byte) returns (ok: bool)
      requires Valid() && pending.None?
      modifies this`offset, this`pending
      ensures Valid() && pending.None? && old(offset) <= offset
      ensures ok <==> old(offset) < |input| && input[old(offset)] == expected
      ensures ok ==> offset == old(offset) + 1
    {
      var b := ReadByte();
      ok := b.Some? && b.value == expected;
    }

    /** Behind `\\u`. */
    method DecodeUnicodeEscape() returns (c: Option<Scalar>)
      requires Valid() && pending.None? && 2 <= offset
      requires input[offset - 2] == Strings.BACKSLASH && input[offset - 1] == Strings.LETTER_U
      modifies this`offset, this`pending
      ensures Valid() && pending.None? && old(offset) <= offset && Took(input, old(offset) - 2, c, offset)
    {
      ghost var s := input[offset - 2..];
      hide Strings.Quad, Strings.HexDigit, Strings.IsQuad, FromUtf8, Encode;
      assert |s| >= 6 ==> s[2..6] == input[offset..offset + 4];
      assert |s| >= 12 ==> s[8..12] == input[offset + 6..offset + 10];
      var high := ReadHexQuad();
      if high.None? {
        return None;
      }
      if IsHigh(high.value) {
        var ok := ExpectByte(Strings.BACKSLASH);
        if !ok {
          return None;
        }
        ok := ExpectByte(Strings.LETTER_U);
        if !ok {
          return None;
        }
        var low := ReadHexQuad();
        if low.None? || !IsLow(low.value) {
          return None;
        }
        return Some(Combine(high.value, low.value));
      }
      if IsLow(high.value) {
        return None;
      }
      c := Some(high.value);
    }
  }

  lemma FirstOfRest(input: seq<byte>, p: nat)
    requires p <= |input|
    ensures p == |input| <==> input[p..] == []
    ensures p < |input| ==> input[p..][0] == input[p]
  {}

  lemma RestOfRest(input: seq<byte>, p: nat, q: nat)
    requires p <= q <= |input|
    ensures input[p..][q - p..] == input[q..]
  {}

  lemma StartIsEmpty(input: seq<byte>, offset: nat, start: nat, first: byte)
    requires At(input, offset, start, Numbers.Start, Some(first))
    ensures input[start..offset - 1] == []
  {
    Numbers.OnlyNothingStarts(input[start..offset - 1]);
  }

  /** How the automaton takes the first byte of a number, and the digit behind a minus. */
  lemma FirstStep()
    ensures Numbers.Step(Numbers.Start, Numbers.MINUS) == Numbers.Minus
    ensures Numbers.Step(Numbers.Start, Numbers.ZERO) == Numbers.Step(Numbers.Minus, Numbers.ZERO) == Numbers.Zero
    ensures forall c: byte :: Numbers.IsDigit(c) && c != Numbers.ZERO ==>
              Numbers.Step(Numbers.Start, c) == Numbers.Step(Numbers.Minus, c) == Numbers.Int
    ensures forall c: byte :: !Numbers.IsDigit(c) ==> Numbers.Step(Numbers.Minus, c) == Numbers.Stuck
    ensures forall c: byte :: !Numbers.IsDigit(c) && c != Numbers.MINUS ==> Numbers.Step(Numbers.Start, c) == Numbers.Stuck
    ensures forall c: byte :: Numbers.IsDigit(c) ==> Numbers.Step(Numbers.Zero, c) == Numbers.Stuck && !Numbers.IsTerminator(c)
  {}

  // ---------------------------------------------------------------- where a string scan stands

  /** What has been read between `p` and `q` is the item at `p`, and stands for `c`. */
  ghost predicate Took(input: seq<byte>, p: nat, c: Option<Scalar>, q: nat)
    requires p <= |input|
  {
    match Strings.NextItem(input[p..])
    case None => c.None?
    case Some(i) => Strings.IsItem(i) && c == Some(Strings.Meaning(i)) && q == p + |Strings.Source(i)|
  }

  /** Up to `at` the string's items have been read, and their text captured. */
  ghost predicate Decoding(input: seq<byte>, start: nat, at: nat, items: seq<Strings.Item>, fragments: seq<seq<byte>>, fragment: seq<byte>) {
    && start <= at <= |input|
    && Strings.ReadTo(input[start..], items, at - start)
    && Strings.AllItems(items) && Captured(fragments, fragment, Strings.Value(items))
  }

  lemma DecodingStarts(input: seq<byte>, start: nat)
    requires start <= |input|
    ensures Decoding(input, start, start, [], [], [])
  {
    NothingCaptured([]);
    Strings.ReadStart(input[start..]);
  }

  lemma DecodingNext(input: seq<byte>, start: nat, at: nat, items: seq<Strings.Item>, c: Option<Scalar>, q: nat)
    returns (items': seq<Strings.Item>)
    requires start <= at < |input| && input[at] != Strings.QUOTE && at <= q && Took(input, at, c, q)
    requires Strings.ReadTo(input[start..], items, at - start) && Strings.AllItems(items)
    ensures c.None? ==> Strings.Parse(input[start..]).None?
    ensures c.Some? ==> && q <= |input| && Strings.ReadTo(input[start..], items', q - start)
                        && Strings.AllItems(items') && Strings.Value(items') == Strings.Value(items) + Encode(c.value)
  {
    hide Strings.Parse, Strings.ReadTo, Strings.AllItems, Strings.Value, Strings.Body, Encode, Strings.Source,
         Strings.IsItem, Strings.Meaning, Strings.NextItem;
    var s, k := input[start..], at - start;
    assert s[k..] == input[at..] && s[k] == input[at];
    items' := items;
    if c.None? {
      Strings.ReadStops(s, items, k);
    } else {
      var item := Strings.NextItem(s[k..]).value;
      assert Strings.IsItem(item) && Strings.Meaning(item) == c.value && q == at + |Strings.Source(item)|;
      hide *;
      Strings.ReadNext(s, items, k, item);
      Strings.BodyPush(items, item);
      items' := items + [item];
    }
  }

  lemma DecodingStops(input: seq<byte>, start: nat, items: seq<Strings.Item>, fragments: seq<seq<byte>>, fragment: seq<byte>)
    requires Decoding(input, start, |input|, items, fragments, fragment)
    ensures Strings.Parse(input[start..]).None?
  {
    var s := input[start..];
    assert s[|input| - start..] == [];
    Strings.ReadStops(s, items, |input| - start);
  }

  /** The fragments of a key are joined as long as they fit. */
  method KeyOf(fragments: seq<seq<byte>>) returns (key: Option<seq<byte>>)
    ensures key == if |Concat(fragments)| <= MAX_KEY_BYTES then Some(Concat(fragments)) else None
  {
    var value: seq<byte>, overflow := [], false;
    for i := 0 to |fragments|
      invariant overflow <==> |Concat(fragments[..i])| > MAX_KEY_BYTES
      invariant !overflow ==> value == Concat(fragments[..i])
    {
      assert fragments[..i + 1] == fragments[..i] + [fragments[i]];
      ConcatPush(fragments[..i], fragments[i]);
      if !overflow {
        if |value| + |fragments[i]| <= MAX_KEY_BYTES {
          value := value + fragments[i];
        } else {
          value, overflow := [], true;
        }
      }
    }
    assert fragments[..|fragments|] == fragments;
    key := if overflow then None else Some(value);
  }

  lemma EndOfBody(s: seq<byte>, items: seq<Strings.Item>, k: nat)
    requires Strings.ReadTo(s, items, k)
    ensures |Strings.Body(items)| == k && Strings.AllItems(items)
  {}

  lemma TookVerbatim(input: seq<byte>, p: nat, b: byte)
    requires p < |input| && input[p] == b && 0x20 <= b < 0x80 && b != Strings.QUOTE && b != Strings.BACKSLASH
    ensures Took(input, p, Some(b), p + 1)
  {
    assert Encode(b) == [b];
  }

  lemma TookWide(input: seq<byte>, p: nat, raw: seq<byte>)
    requires p + |raw| <= |input| && raw == input[p..p + |raw|] && |raw| >= 2 && |raw| == Width(raw[0]) && raw[0] >= 0x80
    ensures Took(input, p, FromUtf8(raw), p + |raw|)
  {
    assert input[p..][..|raw|] == raw;
    var c := FromUtf8(raw);
    if c.Some? {
      SyntaxIsEncoding(raw, c.value);
      Strings.NextItemIsExact(input[p..], Strings.Verbatim(c.value));
    }
    hide FromUtf8, Encode;
  }

  // ---------------------------------------------------------------- where a number scan stands

  /** The end of what has been taken in, when `ahead` has been read beyond it. */
  ghost function End(offset: nat, ahead: Option<byte>): int {
    if ahead.Some? then offset - 1 else offset
  }

  /** The bytes from `start` on have brought the automaton to `state`; `ahead` has been read
      beyond them, or the input has ended. */
  ghost predicate At(input: seq<byte>, offset: nat, start: nat, state: Numbers.State, ahead: Option<byte>) {
    && start <= End(offset, ahead) && offset <= |input|
    && (if ahead.Some? then input[offset - 1] == ahead.value else offset == |input|)
    && Numbers.Run(Numbers.Start, input[start..End(offset, ahead)]) == state
  }

  lemma NextState(input: seq<byte>, offset: nat, start: nat, state: Numbers.State, b: byte)
    requires At(input, offset, start, state, Some(b))
    ensures Numbers.Run(Numbers.Start, input[start..offset]) == Numbers.Step(state, b)
  {
    assert input[start..offset] == input[start..offset - 1] + [b];
    Numbers.RunPush(Numbers.Start, input[start..offset - 1], b);
  }

  ghost predicate NoNumber(input: seq<byte>, start: nat)
    requires start <= |input|
  {
    forall n: nat :: !Numbers.NumberAt(input[start..], n)
  }

  /** The scan can go no further: whether there is a number is decided. */
  lemma Decides(input: seq<byte>, offset: nat, start: nat, state: Numbers.State, ahead: Option<byte>)
    requires At(input, offset, start, state, ahead) && state != Numbers.Stuck
    requires ahead.Some? ==> Numbers.Step(state, ahead.value) == Numbers.Stuck
    ensures if Numbers.Final(state) && (ahead.Some? ==> Numbers.IsTerminator(ahead.value))
            then Numbers.NumberAt(input[start..], End(offset, ahead) - start) else NoNumber(input, start)
  {
    var s, k := input[start..], End(offset, ahead) - start;
    assert s[..k] == input[start..End(offset, ahead)];
    if ahead.Some? {
      NextState(input, offset, start, state, ahead.value);
      assert s[..k + 1] == input[start..offset];
    }
    hide Numbers.Run, Numbers.Step, Numbers.NumberAt, Numbers.Final;
    Numbers.StopDecides(s, k);
  }
}
