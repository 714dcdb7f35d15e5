/** The streaming UTF-8 decoder, against the encoding of section 3 and the syntax of section 4 of
    RFC 3629. */
module Utf8 {
  import opened Options
  import opened Bytes
  import opened Collections

  /** A Unicode scalar value. */
  type Scalar = c: int | 0 <= c < 0xD800 || 0xE000 <= c < 0x110000


  function Encode(c: Scalar): (bytes: seq<byte>)
    ensures 1 <= |bytes| <= 4
  {
    if c < 0x80 then [c]
    else if c < 0x800 then [0xC0 + c / 0x40, 0x80 + c % 0x40]
    else if c < 0x10000 then [0xE0 + c / 0x40 / 0x40, 0x80 + c / 0x40 % 0x40, 0x80 + c % 0x40]
    else [0xF0 + c / 0x40 / 0x40 / 0x40, 0x80 + c / 0x40 / 0x40 % 0x40, 0x80 + c / 0x40 % 0x40, 0x80 + c % 0x40]
  }

  function EncodeAll(cs: seq<Scalar>): seq<byte> {
    if cs == [] then [] else EncodeAll(cs[..|cs| - 1]) + Encode(cs[|cs| - 1])
  }

  /** Bytes are well-formed when they encode some scalar values. */
  ghost predicate WellFormed(bytes: seq<byte>) {
    exists cs: seq<Scalar> :: EncodeAll(cs) == bytes
  }

  // ---------------------------------------------------------------- one multi-byte sequence

  predicate IsTail(b: int) {
    0x80 <= b <= 0xBF
  }

  /** How many bytes a leading byte announces; 0 if none may start a sequence with it. */
  function Width(first: byte): nat {
    if 0xC2 <= first <= 0xDF then 2
    else if 0xE0 <= first <= 0xEF then 3
    else if 0xF0 <= first <= 0xF4 then 4
    else 0
  }

  /** Validating one sequence of the announced width: the rows UTF8-2, UTF8-3 and UTF8-4. */
  function FromUtf8(raw: seq<byte>): Option<Scalar>
    requires |raw| >= 2 && |raw| == Width(raw[0])
  {
    var a: int, b: int := raw[0], raw[1];
    if |raw| == 2 then
      if IsTail(b) then Some(Assemble(a - 0xC0, b)) else None
    else if |raw| == 3 then
      var c: int := raw[2];
      if && IsTail(b) && IsTail(c)
         && (a == 0xE0 ==> 0xA0 <= b)
         && (a == 0xED ==> b <= 0x9F)
      then Some(Assemble(Assemble(a - 0xE0, b), c))
      else None
    else
      var c: int, d: int := raw[2], raw[3];
      if && IsTail(b) && IsTail(c) && IsTail(d)
         && (a == 0xF0 ==> 0x90 <= b)
         && (a == 0xF4 ==> b <= 0x8F)
      then Some(Assemble(Assemble(Assemble(a - 0xF0, b), c), d))
      else None
  }

  /** Appends the six bits of a tail byte. */
  function Assemble(high: int, tail: int): int {
    high * 0x40 + (tail - 0x80)
  }

  lemma AssembleIsDivMod(c: int, high: int, tail: int)
    requires 0x80 <= tail <= 0xBF
    ensures c == Assemble(high, tail) <==> c / 0x40 == high && 0x80 + c % 0x40 == tail
  {}

  lemma TwoBytes(raw: seq<byte>, c: Scalar)
    requires |raw| == 2 == Width(raw[0])
    ensures FromUtf8(raw) == Some(c) <==> raw == Encode(c)
  {
    if IsTail(raw[1]) {
      AssembleIsDivMod(c, raw[0] - 0xC0, raw[1]);
    }
  }

  lemma ThreeBytes(raw: seq<byte>, c: Scalar)
    requires |raw| == 3 == Width(raw[0])
    ensures FromUtf8(raw) == Some(c) <==> raw == Encode(c)
  {
    if IsTail(raw[1]) && IsTail(raw[2]) {
      AssembleIsDivMod(c, Assemble(raw[0] - 0xE0, raw[1]), raw[2]);
      AssembleIsDivMod(c / 0x40, raw[0] - 0xE0, raw[1]);
    }
  }

  lemma FourBytes(raw: seq<byte>, c: Scalar)
    requires |raw| == 4 == Width(raw[0])
    ensures FromUtf8(raw) == Some(c) <==> raw == Encode(c)
  {
    if IsTail(raw[1]) && IsTail(raw[2]) && IsTail(raw[3]) {
      AssembleIsDivMod(c, Assemble(Assemble(raw[0] - 0xF0, raw[1]), raw[2]), raw[3]);
      AssembleIsDivMod(c / 0x40, Assemble(raw[0] - 0xF0, raw[1]), raw[2]);
      AssembleIsDivMod(c / 0x40 / 0x40, raw[0] - 0xF0, raw[1]);
    }
  }

  /** The syntax rows admit exactly the encodings. */
  lemma SyntaxIsEncoding(raw: seq<byte>, c: Scalar)
    requires |raw| >= 2 && |raw| == Width(raw[0])
    ensures FromUtf8(raw) == Some(c) <==> raw == Encode(c)
  {
    hide FromUtf8, Encode;
    if |raw| == 2 {
      TwoBytes(raw, c);
    } else if |raw| == 3 {
      ThreeBytes(raw, c);
    } else {
      FourBytes(raw, c);
    }
  }

  lemma EncodingShape(c: Scalar)
    ensures var e := Encode(c);
      && (|e| == 1 <==> e[0] < 0x80)
      && (|e| == 1 ==> e[0] == c)
      && (|e| >= 2 ==> Width(e[0]) == |e| && FromUtf8(e) == Some(c) && forall i :: 1 <= i < |e| ==> IsTail(e[i]))
  {
    if c >= 0x80 {
      SyntaxIsEncoding(Encode(c), c);
    }
  }

  // ---------------------------------------------------------------- the decoder as a state machine

  /** `next` is the offset of the next byte. A failed decoder has returned its error. */
  datatype State = State(pending: seq<byte>, next: nat, out: seq<DecodedChar<Scalar>>, failed: bool)

  function Start(offset: nat): State {
    State([], offset, [], false)
  }

  function Step(s: State, b: byte): State {
    if s.failed then s
    else if s.pending == [] then
      if b < 0x80 then State([], s.next + 1, s.out + [DecodedChar(b, s.next, s.next + 1)], false)
      else if Width(b) == 0 then s.(failed := true)
      else s.(pending := [b], next := s.next + 1)
    else if !IsTail(b) || Width(s.pending[0]) == 0 then s.(failed := true)
    else
      var raw := s.pending + [b];
      if |raw| != Width(raw[0]) then s.(pending := raw, next := s.next + 1)
      else if FromUtf8(raw).None? then s.(failed := true)
      else State([], s.next + 1, s.out + [DecodedChar(FromUtf8(raw).value, Max0(s.next - |s.pending|), s.next + 1)], false)
  }

  function Max0(n: int): nat {
    if n < 0 then 0 else n
  }

  function Fed(s: State, bytes: seq<byte>): State
    decreases |bytes|
  {
    if bytes == [] then s else Fed(Step(s, bytes[0]), bytes[1..])
  }

  predicate Accepts(s: State) {
    !s.failed && s.pending == []
  }

  /** Where the buffers are split does not matter. */
  lemma {:induction false} FedSplits(s: State, a: seq<byte>, b: seq<byte>)
    ensures Fed(s, a + b) == Fed(Fed(s, a), b)
    decreases |a|
  {
    if a == [] {
      assert a + b == b;
    } else {
      FedSplits(Step(s, a[0]), a[1..], b);
      assert (a + b)[1..] == a[1..] + b;
    }
  }

  /** The decoded ranges tile the consumed bytes: each is as long as its character's encoding, and
      each starts where the one before it ends. */
  ghost predicate Tiles(out: seq<DecodedChar<Scalar>>, from: nat, to: nat) {
    && (forall i :: 0 <= i < |out| ==> out[i].end == out[i].start + |Encode(out[i].character)|)
    && TiledOver(out, from, to)
  }

  /** A partial sequence: a leading byte and some of its tail bytes. */
  ghost predicate Partial(pending: seq<byte>) {
    pending != [] ==> |pending| < Width(pending[0]) && forall i :: 1 <= i < |pending| ==> IsTail(pending[i])
  }

  lemma EncodeAllPush(cs: seq<Scalar>, c: Scalar)
    ensures EncodeAll(cs + [c]) == EncodeAll(cs) + Encode(c)
  {
    assert (cs + [c])[..|cs|] == cs;
  }

  lemma {:induction false} EncodeAllFirst(c: Scalar, cs: seq<Scalar>)
    ensures EncodeAll([c] + cs) == Encode(c) + EncodeAll(cs)
  {
    if cs == [] {
      assert [c] + cs == [c] && [c][..0] == [];
    } else {
      hide EncodeAll, Encode;
      var front, last := cs[..|cs| - 1], cs[|cs| - 1];
      EncodeAllFirst(c, front);
      EncodeAllPush(front, last);
      EncodeAllPush([c] + front, last);
      Associates(Encode(c), EncodeAll(front), Encode(last));
      Regroup([c], cs);
    }
  }

  lemma {:induction false} EncodeAllAppend(a: seq<Scalar>, b: seq<Scalar>)
    ensures EncodeAll(a + b) == EncodeAll(a) + EncodeAll(b)
  {
    if b == [] {
      assert a + b == a && EncodeAll([]) == [];
      hide EncodeAll, Encode;
    } else {
      hide EncodeAll, Encode;
      var front, last := b[..|b| - 1], b[|b| - 1];
      EncodeAllAppend(a, front);
      EncodeAllPush(front, last);
      EncodeAllPush(a + front, last);
      Associates(EncodeAll(a), EncodeAll(front), Encode(last));
      Regroup(a, b);
    }
  }

  lemma Regroup(a: seq<Scalar>, b: seq<Scalar>)
    requires b != []
    ensures b[..|b| - 1] + [b[|b| - 1]] == b
    ensures a + b[..|b| - 1] + [b[|b| - 1]] == a + b
  {}

  lemma WellFormedAppend(a: seq<byte>, b: seq<byte>)
    requires WellFormed(a) && WellFormed(b)
    ensures WellFormed(a + b)
  {
    var x: seq<Scalar> :| EncodeAll(x) == a;
    var y: seq<Scalar> :| EncodeAll(y) == b;
    EncodeAllAppend(x, y);
  }

  /** What has been consumed is the encoding of what was decoded, followed by the partial sequence. */
  ghost predicate Sound(offset: nat, bytes: seq<byte>, s: State) {
    && EncodeAll(Characters(s.out)) + s.pending == bytes
    && s.next == offset + |bytes| && |s.pending| <= |bytes|
    && Partial(s.pending)
    && Tiles(s.out, offset, s.next - |s.pending|)
  }

  lemma EmitIsSound(offset: nat, bytes: seq<byte>, s: State, b: byte, c: Scalar)
    requires Sound(offset, bytes, s) && s.pending + [b] == Encode(c)
    ensures Sound(offset, bytes + [b], State([], s.next + 1, s.out + [DecodedChar(c, s.next - |s.pending|, s.next + 1)], false))
  {
    hide Encode, EncodeAll;
    var d := DecodedChar(c, s.next - |s.pending|, s.next + 1);
    var whole := EncodeAll(Characters(s.out));
    assert |Encode(c)| == |s.pending| + 1;
    assert EncodeAll(Characters(s.out + [d])) + [] == bytes + [b] by {
      assert Characters(s.out + [d]) == Characters(s.out) + [c];
      EncodeAllPush(Characters(s.out), c);
      assert whole + (s.pending + [b]) == whole + s.pending + [b];
    }
    TilesPush(s.out, d, offset);
  }

  lemma TilesPush(out: seq<DecodedChar<Scalar>>, d: DecodedChar<Scalar>, from: nat)
    requires Tiles(out, from, d.start) && d.end == d.start + |Encode(d.character)|
    ensures Tiles(out + [d], from, d.end)
  {}

  lemma StartIsSound(offset: nat)
    ensures Sound(offset, [], Start(offset))
  {
    assert Characters<Scalar>([]) == [];
  }

  lemma HoldIsSound(offset: nat, bytes: seq<byte>, s: State, b: byte)
    requires Sound(offset, bytes, s) && Partial(s.pending + [b])
    ensures Sound(offset, bytes + [b], s.(pending := s.pending + [b], next := s.next + 1))
  {
    var whole := EncodeAll(Characters(s.out));
    assert whole + (s.pending + [b]) == whole + s.pending + [b];
  }

  /** What a step can do: fail, complete a character, or hold one more byte. */
  lemma StepCases(s: State, b: byte)
    requires !s.failed && Partial(s.pending) && |s.pending| <= s.next && !Step(s, b).failed
    ensures var raw := s.pending + [b];
      || (exists c: Scalar :: raw == Encode(c)
            && Step(s, b) == State([], s.next + 1, s.out + [DecodedChar(c, s.next - |s.pending|, s.next + 1)], false))
      || (Partial(raw) && Step(s, b) == s.(pending := raw, next := s.next + 1))
  {
    var raw := s.pending + [b];
    if s.pending == [] && b < 0x80 {
      var c: Scalar := b;
      assert raw == Encode(c);
    } else if s.pending != [] && |raw| == Width(raw[0]) {
      var c := FromUtf8(raw).value;
      SyntaxIsEncoding(raw, c);
    }
  }

  lemma StepIsSound(offset: nat, bytes: seq<byte>, s: State, b: byte)
    requires Sound(offset, bytes, s) && !s.failed && !Step(s, b).failed
    ensures Sound(offset, bytes + [b], Step(s, b))
  {
    StepCases(s, b);
    if c: Scalar :| s.pending + [b] == Encode(c) && Step(s, b) == State([], s.next + 1, s.out + [DecodedChar(c, s.next - |s.pending|, s.next + 1)], false) {
      EmitIsSound(offset, bytes, s, b, c);
    } else {
      HoldIsSound(offset, bytes, s, b);
    }
  }

  lemma {:induction false} DecodedSoFar(offset: nat, done: seq<byte>, s: State, bytes: seq<byte>)
    requires Sound(offset, done, s) && !s.failed
    ensures !Fed(s, bytes).failed ==> Sound(offset, done + bytes, Fed(s, bytes))
    decreases |bytes|
  {
    hide Step, Sound;
    if bytes == [] {
      assert done + bytes == done;
    } else {
      var t := Step(s, bytes[0]);
      if t.failed {
        FailureIsFinal(t, bytes[1..]);
      } else {
        StepIsSound(offset, done, s, bytes[0]);
        DecodedSoFar(offset, done + [bytes[0]], t, bytes[1..]);
        assert done + [bytes[0]] + bytes[1..] == done + bytes;
      }
    }
  }

  lemma {:induction false} FailureIsFinal(s: State, bytes: seq<byte>)
    requires s.failed
    ensures Fed(s, bytes) == s
    decreases |bytes|
  {
    if bytes != [] {
      FailureIsFinal(Step(s, bytes[0]), bytes[1..]);
    }
  }

  lemma FedFrom(s: State, bytes: seq<byte>, index: nat)
    requires index < |bytes|
    ensures var t := Step(s, bytes[index]); Fed(s, bytes[index..]) == if t.failed then t else Fed(t, bytes[index + 1..])
  {
    assert bytes[index..][1..] == bytes[index + 1..];
    if Step(s, bytes[index]).failed {
      FailureIsFinal(Step(s, bytes[index]), bytes[index + 1..]);
    }
  }

  lemma StepAppends(s: State, out: seq<DecodedChar<Scalar>>, b: byte)
    requires s.out == []
    ensures var alone := Step(s, b); Step(s.(out := out), b) == alone.(out := out + alone.out)
  {}

  lemma FedOneMore(s: State, bytes: seq<byte>, b: byte)
    ensures Fed(s, bytes + [b]) == Step(Fed(s, bytes), b)
  {
    FedSplits(s, bytes, [b]);
    assert Fed(Fed(s, bytes), [b]) == Fed(Step(Fed(s, bytes), b), []);
  }

  lemma {:induction false} PrefixIsHeld(s: State, c: Scalar, k: nat)
    requires Accepts(s) && k < |Encode(c)|
    ensures Fed(s, Encode(c)[..k]) == s.(pending := Encode(c)[..k], next := s.next + k)
  {
    var e := Encode(c);
    if k > 0 {
      PrefixIsHeld(s, c, k - 1);
      EncodingShape(c);
      assert e[..k] == e[..k - 1] + [e[k - 1]];
      FedOneMore(s, e[..k - 1], e[k - 1]);
    }
  }

  /** Feeding an encoding from between characters decodes it. */
  lemma DecodesOne(s: State, c: Scalar)
    requires Accepts(s)
    ensures Fed(s, Encode(c)) == State([], s.next + |Encode(c)|, s.out + [DecodedChar(c, s.next, s.next + |Encode(c)|)], false)
  {
    hide *;
    var e, last := Encode(c), |Encode(c)| - 1;
    var front, b := e[..last], e[last];
    assert e == front + [b] && |front| == last;
    AcceptsIs(s);
    PrefixIsHeld(s, c, last);
    LastByteOf(c);
    FedOneMore(s, front, b);
    LastByteEmits(s.(pending := front, next := s.next + last), b, c);
  }

  lemma AcceptsIs(s: State)
    requires Accepts(s)
    ensures s.pending == [] && !s.failed
  {}

  lemma LastByteOf(c: Scalar)
    ensures var e := Encode(c);
      var last := |e| - 1;
      var raw := e[..last] + [e[last]];
      if |raw| == 1 then e[last] < 0x80 && e[last] == c
      else |raw| == Width(raw[0]) && FromUtf8(raw) == Some(c) && IsTail(e[last])
  {
    EncodingShape(c);
    hide Encode, FromUtf8, Width;
    var e := Encode(c);
    assert e[..|e| - 1] + [e[|e| - 1]] == e;
  }

  lemma LastByteEmits(s: State, b: byte, c: Scalar)
    requires !s.failed && |s.pending| <= s.next
    requires var raw := s.pending + [b];
      if |raw| == 1 then b < 0x80 && b == c
      else |raw| == Width(raw[0]) && FromUtf8(raw) == Some(c) && IsTail(b)
    ensures Step(s, b) == State([], s.next + 1, s.out + [DecodedChar(c, s.next - |s.pending|, s.next + 1)], false)
  {}

  lemma {:induction false} DecodesAll(offset: nat, cs: seq<Scalar>)
    ensures var s := Fed(Start(offset), EncodeAll(cs));
      Accepts(s) && Characters(s.out) == cs
  {
    if cs == [] {
      assert Characters<Scalar>([]) == [];
    } else {
      var front, c := cs[..|cs| - 1], cs[|cs| - 1];
      DecodesAll(offset, front);
      var s := Fed(Start(offset), EncodeAll(front));
      FedSplits(Start(offset), EncodeAll(front), Encode(c));
      DecodesOne(s, c);
      var t := Fed(Start(offset), EncodeAll(cs));
      assert Characters(t.out) == Characters(s.out) + [c];
    }
  }

  /** However its buffers are cut, the decoder accepts exactly the well-formed byte sequences; what it
      decodes re-encodes to the input, and the byte ranges tile it without gap or overlap. */
  lemma DecoderIsExact(offset: nat, buffers: seq<seq<byte>>)
    ensures var s := FedAll(Start(offset), buffers);
      && (Accepts(s) <==> WellFormed(Concat(buffers)))
      && (Accepts(s) ==> EncodeAll(Characters(s.out)) == Concat(buffers) && Tiles(s.out, offset, offset + |Concat(buffers)|))
  {
    hide Fed, FedAll, EncodeAll, Encode, Step, Tiles, Partial, Characters;
    FedAllIsFed(Start(offset), buffers);
    var bytes := Concat(buffers);
    StartIsSound(offset);
    DecodedSoFar(offset, [], Start(offset), bytes);
    assert [] + bytes == bytes;
    if cs: seq<Scalar> :| EncodeAll(cs) == bytes {
      DecodesAll(offset, cs);
    }
  }

  function FedAll(s: State, buffers: seq<seq<byte>>): State {
    if buffers == [] then s else Fed(FedAll(s, buffers[..|buffers| - 1]), buffers[|buffers| - 1])
  }

  lemma {:induction false} FedAllIsFed(s: State, buffers: seq<seq<byte>>)
    ensures FedAll(s, buffers) == Fed(s, Concat(buffers))
  {
    if buffers != [] {
      var front := buffers[..|buffers| - 1];
      FedAllIsFed(s, front);
      FedSplits(s, Concat(front), buffers[|buffers| - 1]);
    }
  }

  /** A text has one encoding only. */
  lemma EncodingIsInjective(a: seq<Scalar>, b: seq<Scalar>)
    requires EncodeAll(a) == EncodeAll(b)
    ensures a == b
  {
    DecodesAll(0, a);
    DecodesAll(0, b);
  }

  // ---------------------------------------------------------------- the decoder in place

  class Utf8Decoder {
    /** The bytes of the sequence under way, each with its offset. */
    var pending: seq<(byte, nat)>
    ghost var held: seq<byte>

    ghost predicate ReadyAt(offset: nat)
      reads this
    {
      && |pending| == |held| <= offset
      && (forall i :: 0 <= i < |pending| ==> pending[i] == (held[i], offset - |pending| + i))
      && Partial(held)
    }

    constructor ()
      ensures held == [] && forall offset: nat :: ReadyAt(offset)
    {
      pending, held := [], [];
    }

    /** Decodes one buffer, reporting the characters it completes; `ok` is false at the first error. */
    method Feed(bytes: seq<byte>, offset: nat) returns (out: seq<DecodedChar<Scalar>>, ok: bool)
      requires ReadyAt(offset)
      modifies this
      ensures var s := Fed(State(old(held), offset, [], false), bytes);
        && ok == !s.failed && out == s.out
        && (ok ==> held == s.pending && ReadyAt(offset + |bytes|))
    {
      hide Step;
      out := [];
      ghost var end := Fed(State(held, offset, [], false), bytes);
      assert bytes[0..] == bytes;
      for index := 0 to |bytes|
        invariant ReadyAt(offset + index)
        invariant end == Fed(State(held, offset + index, out, false), bytes[index..])
      {
        FedFrom(State(held, offset + index, out, false), bytes, index);
        StepAppends(State(held, offset + index, [], false), out, bytes[index]);
        var more, valid := Push(bytes[index], offset + index);
        out := out + more;
        if !valid {
          return out, false;
        }
      }
      ok := true;
    }

    method Push(byte: byte, at: nat) returns (out: seq<DecodedChar<Scalar>>, ok: bool)
      requires ReadyAt(at)
      modifies this
      ensures var s := Step(State(old(held), at, [], false), byte);
        && ok == !s.failed && out == s.out
        && (ok ==> held == s.pending && ReadyAt(at + 1) && s.next == at + 1)
    {
      if pending == [] {
        if byte < 0x80 {
          return [DecodedChar(byte, at, at + 1)], true;
        } else if Width(byte) == 0 {
          return [], false;
        }
        pending, held := [(byte, at)], [byte];
        return [], true;
      }
      if !IsTail(byte) {
        return [], false;
      }
      pending, held := pending + [(byte, at)], held + [byte];
      var expected := Width(pending[0].0);
      if |pending| == expected {
        var p := pending;
        var raw := seq(|p|, i requires 0 <= i < |p| => p[i].0);
        assert raw == held;
        var decoded := FromUtf8(raw);
        if decoded.None? {
          return [], false;
        }
        out := [DecodedChar(decoded.value, pending[0].1, pending[expected - 1].1 + 1)];
        pending, held := [], [];
        return out, true;
      }
      return [], true;
    }

    method Finish(ghost offset: nat) returns (ok: bool)
      requires ReadyAt(offset)
      ensures ok <==> held == []
    {
      ok := pending == [];
    }
  }
}
