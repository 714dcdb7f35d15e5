/** Bytes, and byte sequences delivered in pieces. */
module Bytes {

  type byte = b: int | 0 <= b < 256

  const NEWLINE: byte := 10

  /** What a reader has delivered after the given reads, in order. */
  function Concat<T>(parts: seq<seq<T>>): seq<T> {
    if parts == [] then [] else Concat(parts[..|parts| - 1]) + parts[|parts| - 1]
  }

  lemma ConcatPush<T>(parts: seq<seq<T>>, part: seq<T>)
    ensures Concat(parts + [part]) == Concat(parts) + part
  {
    assert (parts + [part])[..|parts|] == parts;
  }

  lemma {:induction false} ConcatAppend<T>(a: seq<seq<T>>, b: seq<seq<T>>)
    ensures Concat(a + b) == Concat(a) + Concat(b)
  {
    if b == [] {
      assert a + b == a;
    } else {
      var front, last := b[..|b| - 1], b[|b| - 1];
      ConcatAppend(a, front);
      assert Concat(b) == Concat(front) + last;
      hide Concat;
      ConcatPush(a + front, last);
      assert a + b == (a + front) + [last];
      assert Concat(a) + (Concat(front) + last) == Concat(a) + Concat(front) + last;
    }
  }

  /** A decoded character with the byte range it came from. */
  datatype DecodedChar<C> = DecodedChar(character: C, start: nat, end: nat)

  function Characters<C>(out: seq<DecodedChar<C>>): seq<C> {
    seq(|out|, i requires 0 <= i < |out| => out[i].character)
  }

  /** Every character begins where the one before it ends. */
  ghost predicate Tiled<C>(ds: seq<DecodedChar<C>>) {
    forall i, j :: 0 <= i && j == i + 1 < |ds| ==> ds[i].end == ds[j].start
  }

  /** Together they are the bytes between two offsets. */
  ghost predicate TiledOver<C>(ds: seq<DecodedChar<C>>, from: nat, to: nat) {
    Tiled(ds) && if ds == [] then from == to else ds[0].start == from && ds[|ds| - 1].end == to
  }
}
