/** When two search hits are too alike: shared vocabulary, overlapping ranges, replicas.
    Weights and scores are real numbers; rounding is not modelled. */
module Similarity {
  import opened Collections

  /** What ranking looks at in a prepared hit. Tier and relevance are given. */
  datatype Candidate = Candidate(
    id: string,
    kind: string,
    key: string,
    version: string,
    startByte: nat,
    endByte: nat,
    startLine: nat,
    endLine: nat,
    text: string,
    symbols: set<string>,
    salient: map<string, real>,
    tier: nat,
    relevance: real)

  const OVERLAP := 0.8
  const ADJACENT_SESSION := 0.7

  // ---------------------------------------------------------------- vocabulary

  function Weight(terms: map<string, real>, t: string): real {
    if t in terms then terms[t] else 0.0
  }

  function Less(a: real, b: real): real {
    if a <= b then a else b
  }

  function More(a: real, b: real): real {
    if a >= b then a else b
  }

  ghost predicate NonNegative(terms: map<string, real>) {
    forall t :: t in terms ==> terms[t] >= 0.0
  }

  ghost predicate Weighted(terms: map<string, real>) {
    forall t :: t in terms ==> terms[t] > 0.0
  }

  /** What two weighted vocabularies share among `keys`, each term counted at its smaller weight.
      With itself, a vocabulary shares its total. */
  ghost function Shared(a: map<string, real>, b: map<string, real>, keys: set<string>): real {
    if keys == {} then 0.0
    else
      var t :| t in keys;
      Less(Weight(a, t), Weight(b, t)) + Shared(a, b, keys - {t})
  }

  ghost function Total(a: map<string, real>): real {
    Shared(a, a, a.Keys)
  }

  ghost function Jaccard(a: map<string, real>, b: map<string, real>): real {
    var common := Shared(a, b, a.Keys);
    var union := Total(a) + Total(b) - common;
    if union > 0.0 then common / union else 0.0
  }

  lemma {:induction false} SharedWithout(a: map<string, real>, b: map<string, real>, keys: set<string>, t: string)
    requires t in keys
    ensures Shared(a, b, keys) == Less(Weight(a, t), Weight(b, t)) + Shared(a, b, keys - {t})
  {
    var s :| s in keys && Shared(a, b, keys) == Less(Weight(a, s), Weight(b, s)) + Shared(a, b, keys - {s});
    if s != t {
      SharedWithout(a, b, keys - {s}, t);
      SharedWithout(a, b, keys - {t}, s);
      assert keys - {s} - {t} == keys - {t} - {s};
    }
  }

  /** Terms that either side lacks add nothing. */
  lemma {:induction false} SharedBeyond(a: map<string, real>, b: map<string, real>, keys: set<string>, more: set<string>)
    requires NonNegative(a) && NonNegative(b) && keys <= more
    requires forall t :: t in more - keys ==> t !in a || t !in b
    ensures Shared(a, b, keys) == Shared(a, b, more)
    decreases more
  {
    if t :| t in more - keys {
      SharedWithout(a, b, more, t);
      SharedBeyond(a, b, keys, more - {t});
    } else {
      assert more == keys + (more - keys) == keys;
    }
  }

  lemma {:induction false} SharedFlips(a: map<string, real>, b: map<string, real>, keys: set<string>)
    ensures Shared(a, b, keys) == Shared(b, a, keys)
  {
    if keys != {} {
      var t :| t in keys;
      SharedWithout(a, b, keys, t);
      SharedWithout(b, a, keys, t);
      SharedFlips(a, b, keys - {t});
    }
  }

  /** What is shared is at most either total; equal to it only if every term weighs as much on the other side. */
  lemma {:induction false} SharedBounds(a: map<string, real>, b: map<string, real>, keys: set<string>)
    requires NonNegative(a) && NonNegative(b)
    ensures 0.0 <= Shared(a, b, keys) <= Shared(a, a, keys)
    ensures Shared(a, b, keys) == Shared(a, a, keys) <==> forall t :: t in keys ==> Weight(a, t) <= Weight(b, t)
    ensures Shared(a, b, keys) > 0.0 <==> exists t :: t in keys && Weight(a, t) > 0.0 && Weight(b, t) > 0.0
  {
    if keys != {} {
      var t :| t in keys;
      SharedWithout(a, b, keys, t);
      SharedWithout(a, a, keys, t);
      SharedBounds(a, b, keys - {t});
      assert keys == (keys - {t}) + {t};
      if s :| s in keys && Weight(a, s) > 0.0 && Weight(b, s) > 0.0 {
        assert s == t || s in keys - {t};
      }
    }
  }

  /** Similarity does not depend on the order of the two hits. */
  lemma JaccardIsSymmetric(a: map<string, real>, b: map<string, real>)
    requires NonNegative(a) && NonNegative(b)
    ensures Jaccard(a, b) == Jaccard(b, a)
  {
    SharedBeyond(a, b, a.Keys, a.Keys + b.Keys);
    SharedBeyond(b, a, b.Keys, a.Keys + b.Keys);
    SharedFlips(a, b, a.Keys + b.Keys);
  }

  lemma Quotient(x: real, y: real)
    requires 0.0 <= x <= y && y > 0.0
    ensures 0.0 <= x / y <= 1.0
    ensures x / y == 1.0 <==> x == y
    ensures x / y > 0.0 <==> x > 0.0
  {}

  /** It lies between nothing in common and the very same weighted terms, and reaches both ends exactly there. */
  lemma JaccardBounds(a: map<string, real>, b: map<string, real>)
    requires Weighted(a) && Weighted(b)
    ensures 0.0 <= Jaccard(a, b) <= 1.0
    ensures Jaccard(a, b) > 0.0 <==> exists t :: t in a && t in b
    ensures Jaccard(a, b) == 1.0 <==> a == b && a != map[]
  {
    var x, y, z := Total(a), Total(b), Shared(a, b, a.Keys);
    SharedBounds(a, b, a.Keys);
    SharedBounds(a, a, a.Keys);
    SharedBounds(b, b, b.Keys);
    SharedBeyond(a, b, a.Keys, a.Keys + b.Keys);
    SharedBeyond(b, a, b.Keys, a.Keys + b.Keys);
    SharedFlips(a, b, a.Keys + b.Keys);
    SharedBounds(b, a, b.Keys);
    assert z == Shared(b, a, b.Keys);
    hide Shared;
    if a != map[] {
      var t :| t in a;
      assert Weight(a, t) > 0.0;
    }
    if x + y - z > 0.0 {
      Quotient(z, x + y - z);
    }
    if x == z && y == z {
      forall t ensures t in a <==> t in b {
        if t in a { assert Weight(a, t) <= Weight(b, t); }
        if t in b { assert Weight(b, t) <= Weight(a, t); }
      }
      forall t | t in a ensures a[t] == b[t] {
        assert Weight(a, t) <= Weight(b, t) && Weight(b, t) <= Weight(a, t);
      }
      assert a == b;
    }
  }

  method WeightedJaccard(a: map<string, real>, b: map<string, real>) returns (r: real)
    ensures r == Jaccard(a, b)
  {
    var common := 0.0;
    var todo := a.Keys;
    while todo != {}
      invariant todo <= a.Keys && common + Shared(a, b, todo) == Shared(a, b, a.Keys)
    {
      var t :| t in todo;
      SharedWithout(a, b, todo, t);
      common := common + Less(a[t], Weight(b, t));
      todo := todo - {t};
    }
    var x := Sum(a);
    var y := Sum(b);
    var union := x + y - common;
    r := if union > 0.0 then common / union else 0.0;
  }

  method Sum(a: map<string, real>) returns (sum: real)
    ensures sum == Total(a)
  {
    sum := 0.0;
    var todo := a.Keys;
    while todo != {}
      invariant todo <= a.Keys && sum + Shared(a, a, todo) == Total(a)
    {
      var t :| t in todo;
      SharedWithout(a, a, todo, t);
      sum := sum + a[t];
      todo := todo - {t};
    }
  }

  // ---------------------------------------------------------------- ranges and replicas

  /** The overlap of two byte ranges of one version of one source, as a share of the shorter one. */
  function Overlap(a: Candidate, b: Candidate): real {
    if a.key != b.key || a.version != b.version then 0.0
    else
      var length := Min(Monus(a.endByte, a.startByte), Monus(b.endByte, b.startByte));
      if length == 0 then 0.0
      else Monus(Min(a.endByte, b.endByte), Max(a.startByte, b.startByte)) as real / length as real
  }

  function Structural(a: Candidate, b: Candidate): real {
    if a.key != b.key then 0.0
    else if Overlap(a, b) >= OVERLAP then 0.95
    else if a.kind == "session" && Max(a.endLine, b.startLine) - Min(a.endLine, b.startLine) <= 1 then ADJACENT_SESSION
    else if a.symbols != {} && a.symbols * b.symbols != {} then 1.0
    else 0.0
  }

  predicate Duplicate(a: Candidate, b: Candidate) {
    && a.kind == b.kind
    && ((a.text != "" && a.text == b.text) || (a.kind == "project" && Overlap(a, b) >= OVERLAP))
  }

  ghost function Range(lo: nat, hi: nat): (r: set<nat>)
    ensures forall i :: i in r <==> lo <= i < hi
    ensures |r| == Monus(hi, lo)
  {
    if lo < hi then Range(lo, hi - 1) + {hi - 1} else {}
  }

  ghost function Bytes(c: Candidate): set<nat> {
    Range(c.startByte, c.endByte)
  }

  /** The formula counts bytes: the common ones over those of the shorter range. */
  lemma OverlapCountsBytes(a: Candidate, b: Candidate)
    requires a.key == b.key && a.version == b.version && Bytes(a) != {} && Bytes(b) != {}
    ensures 0.0 <= Overlap(a, b) <= 1.0
    ensures Overlap(a, b) == |Bytes(a) * Bytes(b)| as real / Min(|Bytes(a)|, |Bytes(b)|) as real
    ensures Overlap(a, b) == 1.0 <==> Bytes(a) <= Bytes(b) || Bytes(b) <= Bytes(a)
  {
    hide Range;
    var lo, hi := Max(a.startByte, b.startByte), Min(a.endByte, b.endByte);
    assert Bytes(a) * Bytes(b) == Range(lo, hi);
    assert |Bytes(a)| > 0 && |Bytes(b)| > 0;
    Quotient(Monus(hi, lo) as real, Min(|Bytes(a)|, |Bytes(b)|) as real);
    if Bytes(a) <= Bytes(b) {
      assert a.startByte in Bytes(a) && a.endByte - 1 in Bytes(a);
    }
    if Bytes(b) <= Bytes(a) {
      assert b.startByte in Bytes(b) && b.endByte - 1 in Bytes(b);
    }
  }

  /** Ranges of one version that share four fifths of the bytes of the shorter one. */
  ghost predicate NearlySame(a: Candidate, b: Candidate) {
    && a.key == b.key && a.version == b.version && Bytes(a) != {} && Bytes(b) != {}
    && 5 * |Bytes(a) * Bytes(b)| >= 4 * Min(|Bytes(a)|, |Bytes(b)|)
  }

  lemma NearlySameIsOverlap(a: Candidate, b: Candidate)
    ensures NearlySame(a, b) <==> Overlap(a, b) >= OVERLAP
  {
    if a.key == b.key && a.version == b.version && Bytes(a) != {} && Bytes(b) != {} {
      OverlapCountsBytes(a, b);
      hide Overlap, Bytes;
      Share(|Bytes(a) * Bytes(b)|, Min(|Bytes(a)|, |Bytes(b)|));
    } else {
      assert |Bytes(a)| == 0 <==> Bytes(a) == {};
      assert |Bytes(b)| == 0 <==> Bytes(b) == {};
      hide Range;
    }
  }

  lemma Share(n: nat, m: nat)
    requires m > 0
    ensures n as real / m as real >= OVERLAP <==> 5 * n >= 4 * m
  {
    AtLeast(n as real, m as real, OVERLAP);
  }

  lemma AtLeast(x: real, y: real, share: real)
    requires y > 0.0
    ensures x / y >= share <==> x >= share * y
  {
    var q := x / y;
    assert q * y == x;
    if q >= share {
      MoreTimes(share, q, y);
    } else {
      assert share * y - x == (share - q) * y;
    }
  }

  lemma MoreTimes(a: real, b: real, y: real)
    requires a <= b && y > 0.0
    ensures a * y <= b * y
  {
    assert b * y - a * y == (b - a) * y;
  }

  /** The second begins in the line where the first, a part of a session, ends, or in one beside it. */
  predicate Follows(a: Candidate, b: Candidate) {
    a.kind == "session" && b.startLine <= a.endLine + 1 && a.endLine <= b.startLine + 1
  }

  ghost predicate Related(a: Candidate, b: Candidate) {
    exists s :: s in a.symbols && s in b.symbols
  }

  /** The four values and what each means. Nearly the same text comes before adjacency and that before
      common symbols, although these weigh most. */
  lemma StructuralMeans(a: Candidate, b: Candidate)
    ensures Structural(a, b) in {0.0, ADJACENT_SESSION, 0.95, 1.0}
    ensures Structural(a, b) == 0.95 <==> NearlySame(a, b)
    ensures Structural(a, b) == ADJACENT_SESSION <==> a.key == b.key && !NearlySame(a, b) && Follows(a, b)
    ensures Structural(a, b) == 1.0 <==> a.key == b.key && !NearlySame(a, b) && !Follows(a, b) && Related(a, b)
  {
    NearlySameIsOverlap(a, b);
    assert NearlySame(a, b) ==> a.key == b.key;
    hide Overlap, NearlySame;
    if a.symbols * b.symbols != {} {
      var s :| s in a.symbols * b.symbols;
      assert Related(a, b);
    }
    if Related(a, b) {
      var s :| s in a.symbols && s in b.symbols;
      assert s in a.symbols * b.symbols;
    }
  }

  /** Unlike likeness of words, that of place depends on which hit is the first: it is symmetric
      exactly unless one of two parts of a source follows the other and not the other way round. */
  lemma StructuralIsSymmetricExactlyWhen(a: Candidate, b: Candidate)
    ensures Structural(a, b) == Structural(b, a) <==> a.key != b.key || NearlySame(a, b) || Follows(a, b) == Follows(b, a)
  {
    StructuralMeans(a, b);
    StructuralMeans(b, a);
    DuplicateIsSymmetric(a, b);
    NearlySameIsOverlap(a, b);
    NearlySameIsOverlap(b, a);
    hide Structural, NearlySame, Overlap;
    assert Related(a, b) <==> Related(b, a);
  }

  lemma DuplicateIsSymmetric(a: Candidate, b: Candidate)
    ensures Overlap(a, b) == Overlap(b, a)
    ensures Duplicate(a, b) <==> Duplicate(b, a)
  {
    assert Min(a.endByte, b.endByte) == Min(b.endByte, a.endByte);
    assert Max(a.startByte, b.startByte) == Max(b.startByte, a.startByte);
  }

  /** Hits of one kind that say the very same, wherever they are from, or parts of a project file that
      are nearly the same stretch of it. Parts of a session are never collapsed for where they stand. */
  lemma DuplicateMeans(a: Candidate, b: Candidate)
    ensures Duplicate(a, b) <==>
              && a.kind == b.kind
              && ((a.text == b.text && |a.text| > 0) || (a.kind == "project" && NearlySame(a, b)))
    ensures a.kind == "session" ==> (Duplicate(a, b) <==> b.kind == "session" && a.text == b.text != [])
  {
    NearlySameIsOverlap(a, b);
    hide Overlap, NearlySame;
    assert "session"[0] != "project"[0];
  }
}
