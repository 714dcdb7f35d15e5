/** What the split of identifiers means for whoever writes them: where two parts meet, they are
    separate components, and where they do not meet so, they stay one. */
module ComponentLaws {
  import opened WordForms
  import opened RunSplit

  // ---------------------------------------------------------------- a boundary separates

  /** Neither side of a boundary decides about boundaries on the other. */
  lemma CutsBefore(u: Unicode, s: seq<char>, m: nat, i: nat)
    requires Sane(u) && 0 < i < m < |s| && Cut(u, s, m)
    ensures Cut(u, s, i) == Cut(u, s[..m], i)
  {}

  lemma CutsBehind(u: Unicode, s: seq<char>, m: nat, i: nat)
    requires m + i < |s| && 0 < i
    ensures Cut(u, s, m + i) == Cut(u, s[m..], i)
  {}

  lemma {:induction false} SegmentsBefore(u: Unicode, s: seq<char>, m: nat, lo: nat, i: nat)
    requires Sane(u) && lo < i <= m < |s| && Cut(u, s, m)
    ensures SegmentsFrom(u, s, lo, i) == SegmentsFrom(u, s[..m], lo, i) + SegmentsFrom(u, s, m, m + 1)
    decreases m - i
  {
    var front := s[..m];
    if i < m {
      CutsBefore(u, s, m, i);
      var cut := Cut(u, s, i);
      SegmentsBefore(u, s, m, if cut then i else lo, i + 1);
      hide Cut;
      assert front[lo..i] == s[lo..i];
    } else {
      assert front[lo..] == s[lo..m];
    }
  }

  lemma {:induction false} SegmentsBehind(u: Unicode, s: seq<char>, m: nat, lo: nat, i: nat)
    requires lo < i && m + i <= |s|
    ensures SegmentsFrom(u, s, m + lo, m + i) == SegmentsFrom(u, s[m..], lo, i)
    decreases |s| - i
  {
    var back := s[m..];
    if m + i < |s| {
      CutsBehind(u, s, m, i);
      var cut := Cut(u, back, i);
      SegmentsBehind(u, s, m, if cut then i else lo, i + 1);
      hide Cut;
      DropTwice(s, m, lo, i);
    } else {
      DropTwice(s, m, lo, i);
    }
  }

  lemma DropTwice(s: seq<char>, m: nat, lo: nat, i: nat)
    requires lo <= i && m + i <= |s|
    ensures s[m..][lo..i] == s[m + lo..m + i] && s[m..][lo..] == s[m + lo..]
  {}

  lemma {:induction false} WordsOfParts(a: seq<seq<char>>, b: seq<seq<char>>)
    ensures Words(a + b) == Words(a) + Words(b)
    decreases |b|
  {
    if b == [] {
      assert a + b == a;
    } else {
      var front, last := b[..|b| - 1], b[|b| - 1];
      assert (a + b)[..|a + b| - 1] == a + front && (a + b)[|a + b| - 1] == last;
      WordsOfParts(a, front);
    }
  }

  /** Where there is a boundary, the components are those before it and those behind it. */
  lemma BoundarySeparates(u: Unicode, a: seq<char>, b: seq<char>)
    requires Sane(u) && a != [] && b != [] && Cut(u, a + b, |a|)
    ensures Components(u, a + b) == Components(u, a) + Components(u, b)
  {
    var s := a + b;
    assert s[..|a|] == a && s[|a|..] == b;
    SegmentsBefore(u, s, |a|, 0, 1);
    SegmentsBehind(u, s, |a|, 0, 1);
    hide Cut, SegmentsFrom;
    WordsOfParts(Segments(u, a), Segments(u, b));
  }

  /** Snake case: an underscore separates, whatever stands beside it, and is no component itself. */
  lemma UnderscoreSeparates(u: Unicode, a: seq<char>, b: seq<char>)
    requires Sane(u)
    ensures Components(u, a + ['_'] + b) == Components(u, a) + Components(u, b)
  {
    var tail := ['_'] + b;
    assert a + ['_'] + b == a + tail;
    LeadingUnderscore(u, b);
    if a == [] {
      assert a + tail == tail;
    } else {
      BoundarySeparates(u, a, tail) by { assert (a + tail)[|a|] == '_'; }
    }
    hide Components;
    assert a == [] ==> Components(u, a) == [] by { NoComponents(u); }
  }

  lemma NoComponents(u: Unicode)
    ensures Components(u, []) == []
  {}

  lemma LeadingUnderscore(u: Unicode, b: seq<char>)
    requires Sane(u)
    ensures Components(u, ['_'] + b) == Components(u, b)
  {
    assert SegmentsFrom(u, ['_'], 0, 1) == [['_']];
    assert Words([['_']]) == [] by { assert [['_']][..0] == []; }
    if b == [] {
      assert ['_'] + b == ['_'];
    } else {
      BoundarySeparates(u, ['_'], b);
    }
  }

  /** Camel case: a capital behind a lower-case letter begins a component. */
  lemma CapitalSeparates(u: Unicode, a: seq<char>, b: seq<char>)
    requires Sane(u) && a != [] && b != [] && u.lower(a[|a| - 1]) && u.upper(b[0])
    ensures Components(u, a + b) == Components(u, a) + Components(u, b)
  {
    assert (a + b)[|a| - 1] == a[|a| - 1] && (a + b)[|a|] == b[0];
    BoundarySeparates(u, a, b);
  }

  /** Acronyms: the last of several capitals belongs to the word that it begins. */
  lemma AcronymSeparates(u: Unicode, a: seq<char>, b: seq<char>)
    requires Sane(u) && a != [] && |b| >= 2 && u.upper(a[|a| - 1]) && u.upper(b[0]) && u.lower(b[1])
    ensures Components(u, a + b) == Components(u, a) + Components(u, b)
  {
    assert (a + b)[|a| - 1] == a[|a| - 1] && (a + b)[|a|] == b[0] && (a + b)[|a| + 1] == b[1];
    BoundarySeparates(u, a, b);
  }

  // ---------------------------------------------------------------- nothing else does

  lemma {:induction false} Uncut(u: Unicode, s: seq<char>, i: nat)
    requires 0 < i <= |s| && forall k :: 0 < k < |s| ==> !Cut(u, s, k)
    ensures SegmentsFrom(u, s, 0, i) == [s]
    decreases |s| - i
  {
    hide Cut;
    if i < |s| {
      Uncut(u, s, i + 1);
    }
    assert s[0..] == s;
  }

  lemma OneSegment(u: Unicode, s: seq<char>)
    requires s != [] && '_' !in s && forall k :: 0 < k < |s| ==> !Cut(u, s, k)
    ensures Components(u, s) == [s]
  {
    hide Cut;
    Uncut(u, s, 1);
    assert s[0] in s && s != ['_'];
    var none: seq<seq<char>> := [];
    assert [s][..0] == none && Words(none) == none;
    assert Words([s]) == none + [s];
  }

  /** A word stays whole, with a capital in front or without; digits do not divide it either. */
  lemma WordIsWhole(u: Unicode, s: seq<char>)
    requires s != [] && '_' !in s && forall k :: 0 < k < |s| ==> !u.upper(s[k])
    ensures Components(u, s) == [s]
  {
    assert forall k :: 0 <= k < |s| ==> s[k] in s;
    OneSegment(u, s);
  }

  /** So do capitals alone. */
  lemma CapitalsAreWhole(u: Unicode, s: seq<char>)
    requires Sane(u) && s != [] && '_' !in s && forall k :: 0 <= k < |s| ==> !u.lower(s[k])
    ensures Components(u, s) == [s]
  {
    assert forall k :: 0 <= k < |s| ==> s[k] in s;
    OneSegment(u, s);
  }
}
