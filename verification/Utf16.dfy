/** The streaming UTF-16 decoder, against section 2 of RFC 2781. */
module Utf16 {
  import opened Options
  import opened Bytes
  import opened Surrogates
  import opened Utf8

  function UnitBytes(bigEndian: bool, u: Unit): (bytes: seq<byte>)
    ensures |bytes| == 2
  {
    if bigEndian then [u / 0x100, u % 0x100] else [u % 0x100, u / 0x100]
  }

  function UnitOf(bigEndian: bool, first: byte, second: byte): Unit {
    if bigEndian then (first as int) * 0x100 + second else (second as int) * 0x100 + first
  }

  lemma UnitRoundTrip(bigEndian: bool, first: byte, second: byte, u: Unit)
    ensures UnitOf(bigEndian, first, second) == u <==> UnitBytes(bigEndian, u) == [first, second]
  {}

  function Encode16(bigEndian: bool, c: Scalar): (bytes: seq<byte>)
    ensures |bytes| == if c < 0x10000 then 2 else 4
  {
    if c < 0x10000 then UnitBytes(bigEndian, c) else UnitBytes(bigEndian, High(c)) + UnitBytes(bigEndian, Low(c))
  }

  function EncodeAll16(bigEndian: bool, cs: seq<Scalar>): seq<byte> {
    if cs == [] then [] else EncodeAll16(bigEndian, cs[..|cs| - 1]) + Encode16(bigEndian, cs[|cs| - 1])
  }

  ghost predicate WellFormed16(bigEndian: bool, bytes: seq<byte>) {
    exists cs: seq<Scalar> :: EncodeAll16(bigEndian, cs) == bytes
  }

  // ---------------------------------------------------------------- the decoder as a state machine

  datatype State16 = State16(pending: Option<byte>, high: Option<HighSurrogate>, next: nat, out: seq<DecodedChar<Scalar>>, failed: bool)

  function Start16(offset: nat): State16 {
    State16(None, None, offset, [], false)
  }

  /** One code unit, whose two bytes end at `s.next`. */
  function PushUnit(s: State16, unit: Unit): State16 {
    if s.high.Some? then
      if !IsLow(unit) then s.(failed := true)
      else s.(high := None, out := s.out + [DecodedChar(Combine(s.high.value, unit), Max0(s.next - 4), s.next)])
    else if IsHigh(unit) then s.(high := Some(unit))
    else if IsLow(unit) then s.(failed := true)
    else s.(out := s.out + [DecodedChar(unit, Max0(s.next - 2), s.next)])
  }

  function Step16(bigEndian: bool, s: State16, b: byte): State16 {
    if s.failed then s
    else if s.pending.None? then s.(pending := Some(b), next := s.next + 1)
    else PushUnit(s.(pending := None, next := s.next + 1), UnitOf(bigEndian, s.pending.value, b))
  }

  function Fed16(bigEndian: bool, s: State16, bytes: seq<byte>): State16
    decreases |bytes|
  {
    if bytes == [] then s else Fed16(bigEndian, Step16(bigEndian, s, bytes[0]), bytes[1..])
  }

  function FedAll16(bigEndian: bool, s: State16, buffers: seq<seq<byte>>): State16 {
    if buffers == [] then s else Fed16(bigEndian, FedAll16(bigEndian, s, buffers[..|buffers| - 1]), buffers[|buffers| - 1])
  }

  predicate Accepts16(s: State16) {
    !s.failed && s.pending.None? && s.high.None?
  }

  lemma {:induction false} FedSplits16(bigEndian: bool, s: State16, a: seq<byte>, b: seq<byte>)
    ensures Fed16(bigEndian, s, a + b) == Fed16(bigEndian, Fed16(bigEndian, s, a), b)
    decreases |a|
  {
    if a == [] {
      assert a + b == b;
    } else {
      FedSplits16(bigEndian, Step16(bigEndian, s, a[0]), a[1..], b);
      assert (a + b)[1..] == a[1..] + b;
    }
  }

  lemma {:induction false} FedAllIsFed16(bigEndian: bool, s: State16, buffers: seq<seq<byte>>)
    ensures FedAll16(bigEndian, s, buffers) == Fed16(bigEndian, s, Concat(buffers))
  {
    if buffers != [] {
      var front := buffers[..|buffers| - 1];
      FedAllIsFed16(bigEndian, s, front);
      FedSplits16(bigEndian, s, Concat(front), buffers[|buffers| - 1]);
    }
  }

  lemma {:induction false} FailureIsFinal16(bigEndian: bool, s: State16, bytes: seq<byte>)
    requires s.failed
    ensures Fed16(bigEndian, s, bytes) == s
    decreases |bytes|
  {
    if bytes != [] {
      FailureIsFinal16(bigEndian, Step16(bigEndian, s, bytes[0]), bytes[1..]);
    }
  }

  lemma StepAppends16(bigEndian: bool, s: State16, out: seq<DecodedChar<Scalar>>, b: byte)
    requires s.out == []
    ensures var alone := Step16(bigEndian, s, b); Step16(bigEndian, s.(out := out), b) == alone.(out := out + alone.out)
  {}

  lemma FedFrom16(bigEndian: bool, s: State16, bytes: seq<byte>, index: nat)
    requires index < |bytes|
    ensures var t := Step16(bigEndian, s, bytes[index]);
      Fed16(bigEndian, s, bytes[index..]) == if t.failed then t else Fed16(bigEndian, t, bytes[index + 1..])
  {
    assert bytes[index..][1..] == bytes[index + 1..];
    if Step16(bigEndian, s, bytes[index]).failed {
      FailureIsFinal16(bigEndian, Step16(bigEndian, s, bytes[index]), bytes[index + 1..]);
    }
  }

  /** The bytes consumed but not yet part of a character. */
  function Held(bigEndian: bool, s: State16): seq<byte> {
    (if s.high.Some? then UnitBytes(bigEndian, s.high.value) else []) + (if s.pending.Some? then [s.pending.value] else [])
  }

  ghost predicate Tiles16(bigEndian: bool, out: seq<DecodedChar<Scalar>>, from: nat, to: nat) {
    && (forall i :: 0 <= i < |out| ==> out[i].end == out[i].start + |Encode16(bigEndian, out[i].character)|)
    && TiledOver(out, from, to)
  }

  ghost predicate Sound16(bigEndian: bool, offset: nat, bytes: seq<byte>, s: State16) {
    && EncodeAll16(bigEndian, Characters(s.out)) + Held(bigEndian, s) == bytes
    && s.next == offset + |bytes|
    && Tiles16(bigEndian, s.out, offset, s.next - |Held(bigEndian, s)|)
  }

  lemma EncodeAllPush16(bigEndian: bool, cs: seq<Scalar>, c: Scalar)
    ensures EncodeAll16(bigEndian, cs + [c]) == EncodeAll16(bigEndian, cs) + Encode16(bigEndian, c)
  {
    assert (cs + [c])[..|cs|] == cs;
  }

  lemma EmitIsSound16(bigEndian: bool, offset: nat, bytes: seq<byte>, s: State16, b: byte, c: Scalar)
    requires Sound16(bigEndian, offset, bytes, s) && Held(bigEndian, s) + [b] == Encode16(bigEndian, c)
    ensures Sound16(bigEndian, offset, bytes + [b],
                    State16(None, None, s.next + 1, s.out + [DecodedChar(c, s.next - |Held(bigEndian, s)|, s.next + 1)], false))
  {
    hide Encode16, EncodeAll16;
    var held := Held(bigEndian, s);
    var d := DecodedChar(c, s.next - |held|, s.next + 1);
    var whole := EncodeAll16(bigEndian, Characters(s.out));
    assert |Encode16(bigEndian, c)| == |held| + 1;
    assert EncodeAll16(bigEndian, Characters(s.out + [d])) + [] == bytes + [b] by {
      assert Characters(s.out + [d]) == Characters(s.out) + [c];
      EncodeAllPush16(bigEndian, Characters(s.out), c);
      assert whole + (held + [b]) == whole + held + [b];
    }
  }

  lemma StartIsSound16(bigEndian: bool, offset: nat)
    ensures Sound16(bigEndian, offset, [], Start16(offset))
  {
    assert Characters<Scalar>([]) == [];
  }

  lemma HoldIsSound16(bigEndian: bool, offset: nat, bytes: seq<byte>, s: State16, b: byte, t: State16)
    requires Sound16(bigEndian, offset, bytes, s)
    requires t.out == s.out && t.next == s.next + 1 && Held(bigEndian, t) == Held(bigEndian, s) + [b]
    ensures Sound16(bigEndian, offset, bytes + [b], t)
  {
    var whole := EncodeAll16(bigEndian, Characters(s.out));
    assert whole + (Held(bigEndian, s) + [b]) == whole + Held(bigEndian, s) + [b];
  }

  /** What a step can do: fail, complete a character, or hold one more byte. */
  lemma StepCases16(bigEndian: bool, s: State16, b: byte)
    requires !s.failed && |Held(bigEndian, s)| <= s.next && !Step16(bigEndian, s, b).failed
    ensures var held, t := Held(bigEndian, s), Step16(bigEndian, s, b);
      || (exists c: Scalar :: held + [b] == Encode16(bigEndian, c)
            && t == State16(None, None, s.next + 1, s.out + [DecodedChar(c, s.next - |held|, s.next + 1)], false))
      || (t.out == s.out && t.next == s.next + 1 && Held(bigEndian, t) == held + [b])
  {
    if s.pending.Some? {
      var held, t := Held(bigEndian, s), Step16(bigEndian, s, b);
      var unit := UnitOf(bigEndian, s.pending.value, b);
      UnitRoundTrip(bigEndian, s.pending.value, b, unit);
      assert UnitBytes(bigEndian, unit) == [s.pending.value] + [b];
      if s.high.Some? {
        var c: Scalar := Combine(s.high.value, unit);
        PairsAreSupplementary(s.high.value, unit, c);
        assert held + [b] == Encode16(bigEndian, c);
      } else if !IsHigh(unit) {
        assert held + [b] == Encode16(bigEndian, unit);
      }
    }
  }

  lemma HeldIsConsumed(bigEndian: bool, offset: nat, bytes: seq<byte>, s: State16)
    requires Sound16(bigEndian, offset, bytes, s)
    ensures |Held(bigEndian, s)| <= s.next
  {}

  lemma StepIsSound16(bigEndian: bool, offset: nat, bytes: seq<byte>, s: State16, b: byte)
    requires Sound16(bigEndian, offset, bytes, s) && !s.failed && !Step16(bigEndian, s, b).failed
    ensures Sound16(bigEndian, offset, bytes + [b], Step16(bigEndian, s, b))
  {
    hide Sound16, Step16, Encode16, Held;
    HeldIsConsumed(bigEndian, offset, bytes, s);
    StepCases16(bigEndian, s, b);
    var held, t := Held(bigEndian, s), Step16(bigEndian, s, b);
    if c: Scalar :| held + [b] == Encode16(bigEndian, c) && t == State16(None, None, s.next + 1, s.out + [DecodedChar(c, s.next - |held|, s.next + 1)], false) {
      EmitIsSound16(bigEndian, offset, bytes, s, b, c);
    } else {
      HoldIsSound16(bigEndian, offset, bytes, s, b, t);
    }
  }

  lemma {:induction false} DecodedSoFar16(bigEndian: bool, offset: nat, done: seq<byte>, s: State16, bytes: seq<byte>)
    requires Sound16(bigEndian, offset, done, s) && !s.failed
    ensures !Fed16(bigEndian, s, bytes).failed ==> Sound16(bigEndian, offset, done + bytes, Fed16(bigEndian, s, bytes))
    decreases |bytes|
  {
    hide Sound16, Step16;
    if bytes == [] {
      assert done + bytes == done;
    } else {
      var t := Step16(bigEndian, s, bytes[0]);
      if t.failed {
        FailureIsFinal16(bigEndian, t, bytes[1..]);
      } else {
        StepIsSound16(bigEndian, offset, done, s, bytes[0]);
        DecodedSoFar16(bigEndian, offset, done + [bytes[0]], t, bytes[1..]);
        assert done + [bytes[0]] + bytes[1..] == done + bytes;
      }
    }
  }

  lemma FedUnit(bigEndian: bool, s: State16, u: Unit)
    requires !s.failed && s.pending.None?
    ensures Fed16(bigEndian, s, UnitBytes(bigEndian, u)) == PushUnit(s.(next := s.next + 2), u)
  {
    var bytes := UnitBytes(bigEndian, u);
    UnitRoundTrip(bigEndian, bytes[0], bytes[1], u);
    var s1 := Step16(bigEndian, s, bytes[0]);
    assert Fed16(bigEndian, s, bytes) == Fed16(bigEndian, s1, bytes[1..]);
    assert Fed16(bigEndian, s1, bytes[1..]) == Fed16(bigEndian, Step16(bigEndian, s1, bytes[1]), []);
  }

  lemma DecodesOne16(bigEndian: bool, s: State16, c: Scalar)
    requires Accepts16(s)
    ensures var end := s.next + |Encode16(bigEndian, c)|;
      Fed16(bigEndian, s, Encode16(bigEndian, c)) == State16(None, None, end, s.out + [DecodedChar(c, s.next, end)], false)
  {
    if c < 0x10000 {
      FedUnit(bigEndian, s, c);
    } else {
      PairsAreSupplementary(High(c), Low(c), c);
      FedSplits16(bigEndian, s, UnitBytes(bigEndian, High(c)), UnitBytes(bigEndian, Low(c)));
      FedUnit(bigEndian, s, High(c));
      FedUnit(bigEndian, PushUnit(s.(next := s.next + 2), High(c)), Low(c));
    }
  }

  lemma {:induction false} DecodesAll16(bigEndian: bool, offset: nat, cs: seq<Scalar>)
    ensures var s := Fed16(bigEndian, Start16(offset), EncodeAll16(bigEndian, cs));
      Accepts16(s) && Characters(s.out) == cs
  {
    if cs == [] {
      assert Characters<Scalar>([]) == [];
    } else {
      var front, c := cs[..|cs| - 1], cs[|cs| - 1];
      DecodesAll16(bigEndian, offset, front);
      var s := Fed16(bigEndian, Start16(offset), EncodeAll16(bigEndian, front));
      FedSplits16(bigEndian, Start16(offset), EncodeAll16(bigEndian, front), Encode16(bigEndian, c));
      DecodesOne16(bigEndian, s, c);
      var t := Fed16(bigEndian, Start16(offset), EncodeAll16(bigEndian, cs));
      assert Characters(t.out) == Characters(s.out) + [c];
    }
  }

  /** However its buffers are cut, the decoder accepts exactly the well-formed byte sequences; what it
      decodes re-encodes to the input, and the byte ranges tile it without gap or overlap. */
  lemma Decoder16IsExact(bigEndian: bool, offset: nat, buffers: seq<seq<byte>>)
    ensures var s := FedAll16(bigEndian, Start16(offset), buffers);
      && (Accepts16(s) <==> WellFormed16(bigEndian, Concat(buffers)))
      && (Accepts16(s) ==>
            && EncodeAll16(bigEndian, Characters(s.out)) == Concat(buffers)
            && Tiles16(bigEndian, s.out, offset, offset + |Concat(buffers)|))
  {
    hide Fed16, FedAll16, EncodeAll16, Step16;
    FedAllIsFed16(bigEndian, Start16(offset), buffers);
    var bytes := Concat(buffers);
    StartIsSound16(bigEndian, offset);
    DecodedSoFar16(bigEndian, offset, [], Start16(offset), bytes);
    assert [] + bytes == bytes;
    if cs: seq<Scalar> :| EncodeAll16(bigEndian, cs) == bytes {
      DecodesAll16(bigEndian, offset, cs);
    }
  }

  // ---------------------------------------------------------------- the decoder in place

  class Utf16Decoder {
    const bigEndian: bool
    /** A first byte with its offset, and a high surrogate with the range of its bytes. */
    var pendingByte: Option<(byte, nat)>
    var highSurrogate: Option<(HighSurrogate, nat, nat)>

    ghost function Model(next: nat, out: seq<DecodedChar<Scalar>>): State16
      reads this
    {
      State16(if pendingByte.Some? then Some(pendingByte.value.0) else None,
              if highSurrogate.Some? then Some(highSurrogate.value.0) else None, next, out, false)
    }

    ghost predicate ReadyAt(offset: nat)
      reads this
    {
      var held := if pendingByte.Some? then 1 else 0;
      && held <= offset
      && (pendingByte.Some? ==> pendingByte.value.1 == offset - 1)
      && (highSurrogate.Some? ==>
            && 2 + held <= offset && highSurrogate.value.1 == offset - held - 2 && highSurrogate.value.2 == offset - held)
    }

    constructor (bigEndian: bool)
      ensures this.bigEndian == bigEndian && pendingByte.None? && highSurrogate.None?
    {
      this.bigEndian, pendingByte, highSurrogate := bigEndian, None, None;
    }

    method Feed(bytes: seq<byte>, offset: nat) returns (out: seq<DecodedChar<Scalar>>, ok: bool)
      requires ReadyAt(offset)
      modifies this
      ensures var s := Fed16(bigEndian, old(Model(offset, [])), bytes);
        ok == !s.failed && out == s.out && (ok ==> Model(offset + |bytes|, out) == s && ReadyAt(offset + |bytes|))
    {
      hide Step16;
      out := [];
      ghost var end := Fed16(bigEndian, Model(offset, []), bytes);
      assert bytes[0..] == bytes;
      for index := 0 to |bytes|
        invariant ReadyAt(offset + index)
        invariant end == Fed16(bigEndian, Model(offset + index, out), bytes[index..])
      {
        FedFrom16(bigEndian, Model(offset + index, out), bytes, index);
        StepAppends16(bigEndian, Model(offset + index, []), out, bytes[index]);
        var more, valid := PushByte(bytes[index], offset + index);
        out := out + more;
        if !valid {
          return out, false;
        }
      }
      ok := true;
    }

    method PushByte(byte: byte, at: nat) returns (out: seq<DecodedChar<Scalar>>, ok: bool)
      requires ReadyAt(at)
      modifies this
      ensures var s := Step16(bigEndian, old(Model(at, [])), byte);
        ok == !s.failed && out == s.out && (ok ==> Model(at + 1, out) == s && ReadyAt(at + 1))
    {
      if pendingByte.None? {
        pendingByte := Some((byte, at));
        return [], true;
      }
      var (first, firstAt) := pendingByte.value;
      pendingByte := None;
      out, ok := Push(UnitOf(bigEndian, first, byte), firstAt, at + 1);
    }

    /** One code unit, which occupies the bytes from `start` to `end`. */
    method Push(unit: Unit, start: nat, end: nat) returns (out: seq<DecodedChar<Scalar>>, ok: bool)
      requires pendingByte.None? && end == start + 2
      requires highSurrogate.Some? ==> highSurrogate.value.1 + 2 == highSurrogate.value.2 == start
      modifies this`highSurrogate
      ensures var s := PushUnit(old(Model(end, [])), unit);
        ok == !s.failed && out == s.out && (ok ==> Model(end, out) == s)
      ensures highSurrogate.Some? ==> highSurrogate.value.1 + 2 == highSurrogate.value.2 == end
    {
      if highSurrogate.Some? {
        var (high, highStart, _) := highSurrogate.value;
        highSurrogate := None;
        if !IsLow(unit) {
          return [], false;
        }
        return [DecodedChar(Combine(high, unit), highStart, end)], true;
      }
      if IsHigh(unit) {
        highSurrogate := Some((unit, start, end));
        return [], true;
      } else if IsLow(unit) {
        return [], false;
      }
      return [DecodedChar(unit, start, end)], true;
    }

    method Finish(ghost offset: nat) returns (ok: bool)
      ensures ok <==> Accepts16(Model(offset, []))
    {
      ok := pendingByte.None? && highSurrogate.None?;
    }
  }
}
