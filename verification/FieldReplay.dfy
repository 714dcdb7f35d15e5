/** Reading a spooled field back: fixed-size blocks, cut only between characters. */
module FieldReplay {
  import opened Bytes
  import opened Utf8
  import opened FieldLog

  const BLOCK := 16 * 1024

  // ---------------------------------------------------------------- checking a block

  /** A block is whole, or ends inside a character at the given place, or is no UTF-8. */
  datatype Check = Whole | Cut(valid: nat) | Malformed

  function Leading(first: byte): nat {
    if first < 0x80 then 1 else Width(first)
  }

  function CheckUtf8(bytes: seq<byte>): Check
    decreases |bytes|
  {
    if bytes == [] then Whole
    else
      var width := Leading(bytes[0]);
      if width == 0 then Malformed
      else if |bytes| < width then Cut(0)
      else if width >= 2 && FromUtf8(bytes[..width]).None? then Malformed
      else
        Behind(width, CheckUtf8(bytes[width..]))
  }

  function Behind(width: nat, check: Check): Check {
    match check
    case Whole => Whole
    case Cut(valid) => Cut(width + valid)
    case Malformed => Malformed
  }

  lemma CheckStep(bytes: seq<byte>, width: nat)
    requires bytes != [] && width == Leading(bytes[0]) && 0 < width <= |bytes|
    requires width >= 2 ==> FromUtf8(bytes[..width]).Some?
    ensures CheckUtf8(bytes) == Behind(width, CheckUtf8(bytes[width..]))
  {
    hide FromUtf8;
  }

  /** What a check of a block finds when the block begins a well-formed text. */
  ghost predicate Sound(bytes: seq<byte>, rest: seq<byte>) {
    match CheckUtf8(bytes)
    case Whole => WellFormed(bytes) && WellFormed(rest)
    case Cut(valid) =>
      && valid < |bytes| && rest != []
      && WellFormed(bytes[..valid]) && WellFormed(bytes[valid..] + rest)
      && CheckUtf8(bytes[valid..]) == Cut(0)
    case Malformed => false
  }

  lemma {:induction false} CheckIsSound(bytes: seq<byte>, rest: seq<byte>, cs: seq<Scalar>)
    requires bytes + rest == EncodeAll(cs)
    ensures Sound(bytes, rest)
    decreases |cs|
  {
    if bytes == [] {
      assert [] + rest == rest;
      assert EncodeAll([]) == [];
    } else {
      assert cs != [];
      var c, more := cs[0], cs[1..];
      assert cs == [c] + more;
      EncodeAllFirst(c, more);
      EncodingShape(c);
      var e := Encode(c);
      assert (bytes + rest)[0] == bytes[0] == e[0];
      assert Leading(bytes[0]) == |e|;
      if |bytes| < |e| {
        assert bytes[0..] == bytes && bytes[..0] == [];
        assert EncodeAll([]) == [] && EncodeAll(cs) == bytes + rest;
      } else {
        CheckFurther(bytes, rest, e, more);
        CheckIsSound(bytes[|e|..], rest, more);
        SoundBehind(bytes, rest, c);
      }
    }
  }

  lemma CheckFurther(bytes: seq<byte>, rest: seq<byte>, e: seq<byte>, more: seq<Scalar>)
    requires bytes + rest == e + EncodeAll(more) && |e| <= |bytes|
    ensures bytes[..|e|] == e && bytes[|e|..] + rest == EncodeAll(more)
  {
    assert (bytes + rest)[..|e|] == bytes[..|e|] && (e + EncodeAll(more))[..|e|] == e;
    assert (bytes + rest)[|e|..] == bytes[|e|..] + rest && (e + EncodeAll(more))[|e|..] == EncodeAll(more);
  }

  lemma CheckBehind(bytes: seq<byte>, e: seq<byte>, c: Scalar)
    requires e == Encode(c) && |e| <= |bytes| && bytes[..|e|] == e
    ensures CheckUtf8(bytes) == Behind(|e|, CheckUtf8(bytes[|e|..]))
    ensures WellFormed(e)
  {
    hide CheckUtf8, FromUtf8;
    EncodingShape(c);
    assert bytes[0] == e[0];
    assert EncodeAll([]) == [] && EncodeAll([c]) == [] + e == e;
    hide Encode, EncodeAll;
    CheckStep(bytes, |e|);
  }

  lemma SoundBehind(bytes: seq<byte>, rest: seq<byte>, c: Scalar)
    requires |Encode(c)| <= |bytes| && bytes[..|Encode(c)|] == Encode(c) && Sound(bytes[|Encode(c)|..], rest)
    ensures Sound(bytes, rest)
  {
    hide CheckUtf8, Encode, WellFormed, FromUtf8, Sound;
    var e, tail := Encode(c), bytes[|Encode(c)|..];
    CheckBehind(bytes, e, c);
    assert bytes == e + tail;
    SoundConcat(e, tail, rest);
  }

  lemma SoundConcat(e: seq<byte>, tail: seq<byte>, rest: seq<byte>)
    requires CheckUtf8(e + tail) == Behind(|e|, CheckUtf8(tail)) && WellFormed(e) && Sound(tail, rest)
    ensures Sound(e + tail, rest)
  {
    hide CheckUtf8, WellFormed;
    match CheckUtf8(tail)
    case Whole => WellFormedAppend(e, tail);
    case Cut(v) => CutBehind(e, tail, v);
    case Malformed =>
  }

  lemma CutBehind(e: seq<byte>, tail: seq<byte>, v: nat)
    requires v <= |tail| && WellFormed(e) && WellFormed(tail[..v])
    ensures WellFormed((e + tail)[..|e| + v]) && (e + tail)[|e| + v..] == tail[v..]
  {
    hide WellFormed;
    WellFormedAppend(e, tail[..v]);
    assert (e + tail)[..|e| + v] == e + tail[..v];
  }

  // ---------------------------------------------------------------- replaying

  /** The items of one field: with a key, none of them empty and all of them text; without a key,
      the item that came in. */
  ghost predicate Block(items: seq<Item>, f: Field) {
    if f.tag.key.None? then items == [Item(f.tag, f.text)]
    else
      && ItemTexts(items) == f.text
      && forall i :: 0 <= i < |items| ==> items[i].tag == f.tag && items[i].text != [] && WellFormed(items[i].text)
  }

  lemma BlockPush(items: seq<Item>, f: Field, text: seq<byte>)
    requires f.tag.key.Some? && Block(items, f) && text != [] && WellFormed(text)
    ensures Block(items + [Item(f.tag, text)], Field(f.tag, f.text + text))
  {
    hide WellFormed, ItemTexts;
    ItemTextsPush(items, Item(f.tag, text));
  }

  /** The field stands in the spool from `start` to `end`; it has been read to `at` and emitted to
      `mid`, which is a boundary between characters. */
  ghost predicate Replayed(tag: Tag, values: seq<byte>, start: nat, mid: nat, at: nat, end: nat, out: seq<Item>, pending: seq<byte>) {
    && tag.key.Some? && start <= mid <= at <= end <= |values|
    && pending == values[mid..at] && WellFormed(values[mid..end])
    && Block(out, Field(tag, values[start..mid]))
  }

  lemma EmitTo(tag: Tag, values: seq<byte>, start: nat, mid: nat, at: nat, end: nat, out: seq<Item>, pending: seq<byte>, valid: nat)
    requires Replayed(tag, values, start, mid, at, end, out, pending) && 0 < valid <= |pending|
    requires WellFormed(pending[..valid]) && WellFormed(pending[valid..] + values[at..end])
    ensures Replayed(tag, values, start, mid + valid, at, end, out + [Item(tag, pending[..valid])], pending[valid..])
  {
    hide WellFormed, ItemTexts;
    BlockPush(out, Field(tag, values[start..mid]), pending[..valid]);
    hide Block;
    assert values[start..mid + valid] == values[start..mid] + pending[..valid];
    assert values[mid + valid..end] == pending[valid..] + values[at..end];
  }

  lemma SoundHere(values: seq<byte>, mid: nat, at: nat, end: nat)
    requires mid <= at <= end <= |values| && WellFormed(values[mid..end])
    ensures Sound(values[mid..at], values[at..end])
  {
    var cs: seq<Scalar> :| EncodeAll(cs) == values[mid..end];
    hide Sound, EncodeAll;
    assert values[mid..at] + values[at..end] == values[mid..end];
    CheckIsSound(values[mid..at], values[at..end], cs);
  }

  /** Emits what is whole and keeps a character that is cut. Nothing remains at the end of the field. */
  method ReplayValid(tag: Tag, out: seq<Item>, pending: seq<byte>, ghost values: seq<byte>, ghost start: nat, ghost mid: nat, ghost at: nat, ghost end: nat)
    returns (out': seq<Item>, pending': seq<byte>, ghost mid': nat)
    requires Replayed(tag, values, start, mid, at, end, out, pending)
    ensures Replayed(tag, values, start, mid', at, end, out', pending') && (at == end ==> mid' == end)
  {
    hide CheckUtf8, WellFormed, Block;
    out', pending', mid' := out, pending, mid;
    SoundHere(values, mid, at, end);
    match CheckUtf8(pending) {
      case Whole =>
        if pending != [] {
          assert pending[..|pending|] == pending && pending[|pending|..] + values[at..end] == values[at..end];
          EmitTo(tag, values, start, mid, at, end, out, pending, |pending|);
          out', pending', mid' := out + [Item(tag, pending)], [], at;
        }
      case Cut(valid) =>
        if valid > 0 {
          EmitTo(tag, values, start, mid, at, end, out, pending, valid);
          out', pending', mid' := out + [Item(tag, pending[..valid])], pending[valid..], mid + valid;
        }
    }
  }

  lemma ReadFurther(tag: Tag, values: seq<byte>, start: nat, mid: nat, at: nat, end: nat, out: seq<Item>, pending: seq<byte>, count: nat)
    requires Replayed(tag, values, start, mid, at, end, out, pending) && at + count <= end
    ensures Replayed(tag, values, start, mid, at + count, end, out, pending + values[at..at + count])
  {
    hide WellFormed, Block;
  }

  /** Reads a stretch of the spool and emits it as items of one field. */
  method ReplayField(tag: Tag, values: seq<byte>, start: nat, length: nat) returns (out: seq<Item>)
    requires tag.key.Some? && start + length <= |values| && WellFormed(values[start..start + length])
    ensures Block(out, Field(tag, values[start..start + length]))
  {
    out := [];
    var pending: seq<byte>, at := [], start;
    ghost var end, mid := start + length, start;
    assert Replayed(tag, values, start, mid, at, end, out, pending) by {
      assert values[start..start] == [] == ItemTexts([]);
    }
    while at < start + length
      invariant Replayed(tag, values, start, mid, at, end, out, pending)
      invariant at == end ==> mid == end
      decreases end - at
    {
      hide Replayed;
      var count := if start + length - at <= BLOCK then start + length - at else BLOCK;
      ReadFurther(tag, values, start, mid, at, end, out, pending, count);
      pending := pending + values[at..at + count];
      at := at + count;
      out, pending, mid := ReplayValid(tag, out, pending, values, start, mid, at, end);
    }
  }

  /** Compares two stretches of the spool block by block. */
  method RangesEqual(values: seq<byte>, start: nat, end: nat, start': nat, end': nat) returns (equal: bool)
    requires start <= end <= |values| && start' <= end' <= |values|
    ensures equal <==> values[start..end] == values[start'..end']
  {
    if end - start != end' - start' {
      return false;
    }
    var done := 0;
    while done < end - start
      invariant done <= end - start && values[start..start + done] == values[start'..start' + done]
    {
      var count := if end - start - done <= BLOCK then end - start - done else BLOCK;
      var left, right := values[start + done..start + done + count], values[start' + done..start' + done + count];
      if left != right {
        Differ(values, start, end, start', end', done, count);
        return false;
      }
      assert values[start..start + done + count] == values[start..start + done] + left;
      assert values[start'..start' + done + count] == values[start'..start' + done] + right;
      done := done + count;
    }
    equal := true;
  }

  lemma Differ(values: seq<byte>, start: nat, end: nat, start': nat, end': nat, done: nat, count: nat)
    requires start <= end <= |values| && start' <= end' <= |values| && end - start == end' - start' && done + count <= end - start
    requires values[start + done..start + done + count] != values[start' + done..start' + done + count]
    ensures values[start..end] != values[start'..end']
  {
    SliceOfSlice(values, start, end, done, done + count);
    SliceOfSlice(values, start', end', done, done + count);
  }

  lemma SliceOfSlice<T>(s: seq<T>, i: nat, j: nat, a: nat, b: nat)
    requires i <= j <= |s| && a <= b <= j - i
    ensures s[i..j][a..b] == s[i + a..i + b]
  {
    forall k | 0 <= k < b - a ensures s[i..j][a..b][k] == s[i + a..i + b][k] {
      assert s[i..j][a + k] == s[i + a + k];
    }
  }
}
