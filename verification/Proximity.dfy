/** How close together the words of a query stand: the shortest stretch of a text that holds all
    of them, found with one pass of a sliding window. */
module Proximity {
  import opened Collections
  import opened Options

  function Wanted(terms: seq<string>, isStop: string -> bool): set<string> {
    set t | t in terms && !isStop(t)
  }

  ghost predicate Window(sequence: seq<string>, wanted: set<string>, lo: nat, hi: nat) {
    lo <= hi <= |sequence| && forall t :: t in wanted ==> t in sequence[lo..hi]
  }

  ghost predicate Coverable(sequence: seq<string>, wanted: set<string>) {
    Window(sequence, wanted, 0, |sequence|)
  }

  /** `n` is the length of a shortest window that holds all that is wanted. */
  ghost predicate Shortest(sequence: seq<string>, wanted: set<string>, n: nat) {
    && (exists lo: nat, hi: nat :: Window(sequence, wanted, lo, hi) && hi - lo == n)
    && (forall lo: nat, hi: nat :: Window(sequence, wanted, lo, hi) ==> n <= hi - lo)
  }

  lemma {:induction false} Pigeonhole(words: seq<string>, wanted: set<string>)
    requires forall t :: t in wanted ==> t in words
    ensures |wanted| <= |words|
  {
    if words != [] {
      var last := words[|words| - 1];
      Pigeonhole(words[..|words| - 1], wanted - {last});
    } else {
      assert wanted == {};
    }
  }

  lemma SubWindow(sequence: seq<string>, wanted: set<string>, lo: nat, hi: nat, lo': nat, hi': nat)
    requires Window(sequence, wanted, lo, hi) && lo' <= lo && hi <= hi' <= |sequence|
    ensures Window(sequence, wanted, lo', hi')
  {
    forall t | t in wanted ensures t in sequence[lo'..hi'] {
      assert t in sequence[lo..hi];
      var i :| lo <= i < hi && sequence[i] == t;
      assert sequence[lo'..hi'][i - lo'] == t;
    }
  }

  function CountOf(counts: map<string, nat>, word: string): nat {
    if word in counts then counts[word] else 0
  }

  /** The counts of the wanted words inside the window; a word that has left it has no entry. */
  ghost predicate Counts(counts: map<string, nat>, sequence: seq<string>, wanted: set<string>, lo: nat, hi: nat)
    requires lo <= hi <= |sequence|
  {
    && counts.Keys <= wanted
    && (forall t :: t in counts ==> counts[t] > 0)
    && (forall t :: t in wanted ==> multiset(sequence[lo..hi])[t] == CountOf(counts, t))
  }

  lemma CountsDecide(counts: map<string, nat>, sequence: seq<string>, wanted: set<string>, lo: nat, hi: nat)
    requires lo <= hi <= |sequence| && Counts(counts, sequence, wanted, lo, hi)
    ensures |counts| == |wanted| <==> Window(sequence, wanted, lo, hi)
  {
    assert forall t :: t in wanted ==> (t in sequence[lo..hi] <==> t in counts);
    assert |counts| == |counts.Keys|;
    if |counts| == |wanted| {
      SubsetSize(counts.Keys, wanted);
    }
    if Window(sequence, wanted, lo, hi) {
      assert counts.Keys == wanted;
    }
  }

  method CountWord(counts: map<string, nat>, ghost sequence: seq<string>, wanted: set<string>, ghost lo: nat, ghost hi: nat, word: string)
    returns (counts': map<string, nat>)
    requires lo <= hi < |sequence| && word == sequence[hi] && Counts(counts, sequence, wanted, lo, hi)
    ensures Counts(counts', sequence, wanted, lo, hi + 1)
  {
    assert sequence[lo..hi + 1] == sequence[lo..hi] + [word];
    counts' := counts;
    if word in wanted {
      counts' := counts[word := CountOf(counts, word) + 1];
    }
  }

  method DropWord(counts: map<string, nat>, ghost sequence: seq<string>, ghost wanted: set<string>, ghost lo: nat, ghost hi: nat, word: string)
    returns (counts': map<string, nat>)
    requires lo < hi <= |sequence| && word == sequence[lo] && Counts(counts, sequence, wanted, lo, hi)
    ensures Counts(counts', sequence, wanted, lo + 1, hi)
  {
    assert sequence[lo..hi] == [word] + sequence[lo + 1..hi];
    counts' := counts;
    if word in counts {
      counts' := counts[word := counts[word] - 1];
      if counts'[word] == 0 {
        counts' := counts' - {word};
      }
    }
  }

  /** Where the scan stands. `best` accounts for every window that ends by `done`, and windows that
      reach to `hi` from before `lo` are longer. `None` stands for the largest machine integer,
      which no window reaches. */
  ghost predicate Scanned(sequence: seq<string>, wanted: set<string>, lo: nat, hi: nat, done: nat, best: Option<nat>) {
    && lo <= hi <= |sequence| && done <= hi
    && (best.Some? ==> exists a: nat, b: nat :: Window(sequence, wanted, a, b) && b - a == best.value)
    && (lo > 0 ==> best.Some? && best.value <= hi - lo + 1)
    && (forall a: nat, b: nat :: b <= done && Window(sequence, wanted, a, b) ==> best.Some? && best.value <= b - a)
  }

  function Nearer(best: Option<nat>, length: nat): Option<nat> {
    if best.Some? && best.value <= length then best else Some(length)
  }

  lemma ScannedShrink(sequence: seq<string>, wanted: set<string>, lo: nat, hi: nat, best: Option<nat>)
    requires wanted != {} && 0 < hi && Scanned(sequence, wanted, lo, hi, hi - 1, best) && Window(sequence, wanted, lo, hi)
    ensures lo < hi && Scanned(sequence, wanted, lo + 1, hi, hi - 1, Nearer(best, hi - lo))
  {
    var t :| t in wanted;
    assert t in sequence[lo..hi];
    hide Window;
  }

  lemma ScannedStart(sequence: seq<string>, wanted: set<string>)
    requires wanted != {}
    ensures Scanned(sequence, wanted, 0, 0, 0, None) && Counts(map[], sequence, wanted, 0, 0)
  {
    var t :| t in wanted;
    forall a: nat, b: nat | b <= 0 ensures !Window(sequence, wanted, a, b) {
      assert a <= b ==> t !in sequence[a..b];
    }
  }

  lemma ScannedExtend(sequence: seq<string>, wanted: set<string>, lo: nat, hi: nat, best: Option<nat>)
    requires hi < |sequence| && Scanned(sequence, wanted, lo, hi, hi, best)
    ensures Scanned(sequence, wanted, lo, hi + 1, hi, best)
  {}

  lemma ScannedEnd(sequence: seq<string>, wanted: set<string>, lo: nat, best: Option<nat>)
    requires Scanned(sequence, wanted, lo, |sequence|, |sequence|, best)
    ensures best.None? <==> !Coverable(sequence, wanted)
    ensures best.Some? ==> Shortest(sequence, wanted, best.value)
  {
    assert forall a: nat, b: nat :: Window(sequence, wanted, a, b) ==> b <= |sequence|;
    if best.Some? {
      var a: nat, b: nat :| Window(sequence, wanted, a, b) && b - a == best.value;
      SubWindow(sequence, wanted, a, b, 0, |sequence|);
    }
    hide Window;
  }

  /** Once the window no longer covers, everything that ends here is accounted for. */
  lemma ScannedNext(sequence: seq<string>, wanted: set<string>, lo: nat, hi: nat, best: Option<nat>)
    requires hi > 0 && Scanned(sequence, wanted, lo, hi, hi - 1, best) && !Window(sequence, wanted, lo, hi)
    ensures Scanned(sequence, wanted, lo, hi, hi, best)
  {
    forall a: nat, b: nat | b <= hi && Window(sequence, wanted, a, b)
      ensures best.Some? && best.value <= b - a
    {
      if b == hi && lo <= a {
        SubWindow(sequence, wanted, a, b, lo, hi);
      }
    }
  }

  /** The share of the shortest window that the wanted words make up. It is zero exactly when
      fewer than two words are wanted or no stretch holds them all, and never more than one. */
  method Closeness(sequence: seq<string>, terms: seq<string>, isStop: string -> bool) returns (r: real)
    ensures r == 0.0 <==> |Wanted(terms, isStop)| < 2 || !Coverable(sequence, Wanted(terms, isStop))
    ensures 0.0 <= r <= 1.0
    ensures forall n: nat :: |Wanted(terms, isStop)| >= 2 && Shortest(sequence, Wanted(terms, isStop), n) ==>
              1 <= n && r == |Wanted(terms, isStop)| as real / n as real
  {
    var wanted := Wanted(terms, isStop);
    if |wanted| < 2 {
      return 0.0;
    }
    var best := Best(sequence, wanted);
    if best.None? {
      return 0.0;
    }
    BestIsLarge(sequence, wanted, best.value);
    r := |wanted| as real / best.value as real;
    if r > 1.0 {
      r := 1.0;
    }
  }

  lemma BestIsLarge(sequence: seq<string>, wanted: set<string>, n: nat)
    requires |wanted| >= 2 && Shortest(sequence, wanted, n)
    ensures |wanted| <= n && Coverable(sequence, wanted)
    ensures 0.0 < |wanted| as real / n as real <= 1.0
  {
    var lo: nat, hi: nat :| Window(sequence, wanted, lo, hi) && hi - lo == n;
    Pigeonhole(sequence[lo..hi], wanted);
    SubWindow(sequence, wanted, lo, hi, 0, |sequence|);
    Ratio(|wanted| as real, n as real);
  }

  lemma Ratio(a: real, b: real)
    requires 0.0 < a <= b
    ensures 0.0 < a / b <= 1.0
  {}

  /** The sliding window. */
  method Best(sequence: seq<string>, wanted: set<string>) returns (best: Option<nat>)
    requires wanted != {}
    ensures best.None? <==> !Coverable(sequence, wanted)
    ensures best.Some? ==> Shortest(sequence, wanted, best.value)
  {
    var counts: map<string, nat> := map[];
    var left := 0;
    best := None;
    hide *;
    ScannedStart(sequence, wanted);
    for right := 0 to |sequence|
      invariant left <= right && Counts(counts, sequence, wanted, left, right)
      invariant Scanned(sequence, wanted, left, right, right, best)
    {
      counts := CountWord(counts, sequence, wanted, left, right, sequence[right]);
      ScannedExtend(sequence, wanted, left, right, best);
      while |counts| == |wanted|
        invariant left <= right + 1 && Counts(counts, sequence, wanted, left, right + 1)
        invariant Scanned(sequence, wanted, left, right + 1, right, best)
        decreases right + 1 - left
      {
        CountsDecide(counts, sequence, wanted, left, right + 1);
        ScannedShrink(sequence, wanted, left, right + 1, best);
        best := Nearer(best, right - left + 1);
        counts := DropWord(counts, sequence, wanted, left, right + 1, sequence[left]);
        left := left + 1;
      }
      CountsDecide(counts, sequence, wanted, left, right + 1);
      ScannedNext(sequence, wanted, left, right + 1, best);
    }
    ScannedEnd(sequence, wanted, left, best);
  }
}
