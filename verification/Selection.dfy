/** Maximal-marginal-relevance selection: a greedy loop that keeps, for each remaining candidate,
    its greatest similarity to what has been selected, instead of computing it again every time. */
module Selection {
  import opened Collections
  import opened Identifiers
  import opened Similarity
  import opened Ranking

  /** A similarity with the two measures it is the greater of. */
  datatype Likeness = Likeness(combined: real, lexical: real, structure: real)

  const APART := Likeness(0.0, 0.0, 0.0)

  ghost function Pair(selected: Candidate, other: Candidate): Likeness {
    var lexical, structure := Jaccard(selected.salient, other.salient), Structural(selected, other);
    Likeness(More(lexical, structure), lexical, structure)
  }

  // ---------------------------------------------------------------- recomputed from scratch

  /** The greatest similarity to anything selected, as measured against the first that reaches it. */
  ghost predicate IsClosest(selected: seq<Candidate>, c: Candidate, best: Likeness) {
    && (forall k :: 0 <= k < |selected| ==> Pair(selected[k], c).combined <= best.combined)
    && (best == APART ||
        exists k :: 0 <= k < |selected| && best == Pair(selected[k], c) && best.combined > 0.0
                    && forall j :: 0 <= j < k ==> Pair(selected[j], c).combined < best.combined)
  }

  ghost function Closest(selected: seq<Candidate>, c: Candidate): (best: Likeness)
    ensures best.combined >= 0.0
  {
    if selected == [] then APART
    else
      var front, last := selected[..|selected| - 1], Pair(selected[|selected| - 1], c);
      var before := Closest(front, c);
      if last.combined > before.combined then last else before
  }

  lemma {:induction false} ClosestIsClosest(selected: seq<Candidate>, c: Candidate)
    ensures IsClosest(selected, c, Closest(selected, c))
  {
    if selected != [] {
      var front, last := selected[..|selected| - 1], selected[|selected| - 1];
      ClosestIsClosest(front, c);
      ClosestPush(front, c, Closest(front, c), last);
      assert selected == front + [last];
    }
  }

  lemma ClosestPush(front: seq<Candidate>, c: Candidate, best: Likeness, last: Candidate)
    requires IsClosest(front, c, best) && best.combined >= 0.0
    ensures IsClosest(front + [last], c, if Pair(last, c).combined > best.combined then Pair(last, c) else best)
  {
    hide Pair;
    var selected := front + [last];
    assert selected[|front|] == last && forall k :: 0 <= k < |front| ==> selected[k] == front[k];
    if Pair(last, c).combined > best.combined {
    } else if best != APART {
      var k :| 0 <= k < |front| && best == Pair(front[k], c) && best.combined > 0.0 && forall j :: 0 <= j < k ==> Pair(front[j], c).combined < best.combined;
      assert best == Pair(selected[k], c);
    }
  }

  lemma ClosestIsUnique(selected: seq<Candidate>, c: Candidate, a: Likeness, b: Likeness)
    requires IsClosest(selected, c, a) && IsClosest(selected, c, b)
    ensures a == b
  {
    hide Pair;
    if a != APART && b != APART {
      var i :| 0 <= i < |selected| && a == Pair(selected[i], c) && forall j :: 0 <= j < i ==> Pair(selected[j], c).combined < a.combined;
      var k :| 0 <= k < |selected| && b == Pair(selected[k], c) && forall j :: 0 <= j < k ==> Pair(selected[j], c).combined < b.combined;
    }
  }

  ghost function LikenessTo(o: Options, selected: seq<Candidate>, c: Candidate): Likeness {
    if o.mmr then Closest(selected, c) else APART
  }

  function ScoreWith(o: Options, scale: real, likeness: Likeness, c: Candidate): real
    requires scale > 0.0
  {
    if o.mmr then MMR_LAMBDA * c.relevance / scale - (1.0 - MMR_LAMBDA) * likeness.combined else c.relevance / scale
  }

  ghost function Score(o: Options, scale: real, selected: seq<Candidate>, c: Candidate): real
    requires scale > 0.0
  {
    ScoreWith(o, scale, LikenessTo(o, selected, c), c)
  }

  predicate TopTier(remaining: seq<Entry>, tier: nat) {
    && (forall j :: 0 <= j < |remaining| ==> remaining[j].candidate.tier <= tier)
    && (exists j :: 0 <= j < |remaining| && remaining[j].candidate.tier == tier)
  }

  /** The first of the best-scored candidates in the highest remaining tier. */
  ghost predicate Optimal(o: Options, scale: real, remaining: seq<Entry>, selected: seq<Candidate>, i: nat)
    requires scale > 0.0
  {
    && i < |remaining|
    && TopTier(remaining, remaining[i].candidate.tier)
    && BestUpTo(o, scale, remaining, selected, remaining[i].candidate.tier, |remaining|, i)
  }

  ghost predicate BestUpTo(o: Options, scale: real, remaining: seq<Entry>, selected: seq<Candidate>, tier: nat, n: nat, i: nat)
    requires scale > 0.0
  {
    && i < n <= |remaining| && remaining[i].candidate.tier == tier
    && (forall j :: 0 <= j < n && remaining[j].candidate.tier == tier ==>
          Score(o, scale, selected, remaining[j].candidate) <= Score(o, scale, selected, remaining[i].candidate))
    && (forall j :: 0 <= j < i && remaining[j].candidate.tier == tier ==>
          Score(o, scale, selected, remaining[j].candidate) < Score(o, scale, selected, remaining[i].candidate))
  }

  lemma OptimalIsUnique(o: Options, scale: real, remaining: seq<Entry>, selected: seq<Candidate>, i: nat, k: nat)
    requires scale > 0.0 && Optimal(o, scale, remaining, selected, i) && Optimal(o, scale, remaining, selected, k)
    ensures i == k
  {
    hide Score;
  }

  lemma {:induction false} SomeIsBest(o: Options, scale: real, remaining: seq<Entry>, selected: seq<Candidate>, tier: nat, n: nat)
    requires scale > 0.0 && n <= |remaining| && exists j :: 0 <= j < n && remaining[j].candidate.tier == tier
    ensures exists i: nat :: BestUpTo(o, scale, remaining, selected, tier, n, i)
  {
    hide Score;
    var m := n - 1;
    if exists j :: 0 <= j < m && remaining[j].candidate.tier == tier {
      SomeIsBest(o, scale, remaining, selected, tier, m);
      var i: nat :| BestUpTo(o, scale, remaining, selected, tier, m, i);
      if remaining[m].candidate.tier == tier && Score(o, scale, selected, remaining[m].candidate) > Score(o, scale, selected, remaining[i].candidate) {
        assert BestUpTo(o, scale, remaining, selected, tier, n, m);
      } else {
        assert BestUpTo(o, scale, remaining, selected, tier, n, i);
      }
    } else {
      assert BestUpTo(o, scale, remaining, selected, tier, n, m);
    }
  }

  lemma {:induction false} SomeTierIsTop(remaining: seq<Entry>)
    requires remaining != []
    ensures exists tier :: TopTier(remaining, tier)
  {
    var n := |remaining| - 1;
    var last := remaining[n].candidate.tier;
    if n == 0 {
      assert TopTier(remaining, last);
    } else {
      SomeTierIsTop(remaining[..n]);
      var tier :| TopTier(remaining[..n], tier);
      var j :| 0 <= j < n && remaining[..n][j].candidate.tier == tier;
      assert remaining[j].candidate.tier == tier;
      assert TopTier(remaining, if last > tier then last else tier);
    }
  }

  ghost function Choice(o: Options, scale: real, remaining: seq<Entry>, selected: seq<Candidate>): (i: nat)
    requires scale > 0.0 && remaining != []
    ensures Optimal(o, scale, remaining, selected, i)
  {
    SomeTierIsTop(remaining);
    var tier :| TopTier(remaining, tier);
    SomeIsBest(o, scale, remaining, selected, tier, |remaining|);
    var i: nat :| BestUpTo(o, scale, remaining, selected, tier, |remaining|, i);
    i
  }

  // ---------------------------------------------------------------- the greedy selection

  datatype Pick = Pick(entry: Entry, score: real, likeness: Likeness, penalty: real, position: nat)

  function PickWith(o: Options, score: real, likeness: Likeness, entry: Entry, position: nat): Pick {
    Pick(entry, score, likeness, if o.mmr then (1.0 - MMR_LAMBDA) * likeness.combined else 0.0, position)
  }

  function Chosen(picks: seq<Pick>): seq<Candidate> {
    seq(|picks|, k requires 0 <= k < |picks| => picks[k].entry.candidate)
  }

  function Without<T>(s: seq<T>, i: nat): seq<T>
    requires i < |s|
  {
    s[..i] + s[i + 1..]
  }

  datatype Progress = Progress(picks: seq<Pick>, left: seq<Entry>)

  ghost function Step(o: Options, scale: real, p: Progress): Progress
    requires scale > 0.0 && p.left != []
  {
    var i, selected := Choice(o, scale, p.left, Chosen(p.picks)), Chosen(p.picks);
    var c := p.left[i].candidate;
    Progress(p.picks + [PickWith(o, Score(o, scale, selected, c), LikenessTo(o, selected, c), p.left[i], |p.picks| + 1)],
             Without(p.left, i))
  }

  lemma StepMoves(o: Options, scale: real, p: Progress)
    requires scale > 0.0 && p.left != []
    ensures var q := Step(o, scale, p);
      && |q.picks| == |p.picks| + 1 && q.picks[..|p.picks|] == p.picks
      && Entries(q.picks) == Entries(p.picks) + [q.picks[|p.picks|].entry]
      && q.picks[|p.picks|].entry in p.left
      && multiset(p.left) == multiset(q.left) + multiset{q.picks[|p.picks|].entry}
      && (forall e :: e in q.left ==> e in p.left)
  {
    var i := Choice(o, scale, p.left, Chosen(p.picks));
    var q := Step(o, scale, p);
    assert q.picks == p.picks + [q.picks[|p.picks|]] && q.picks[|p.picks|].entry == p.left[i] && q.left == Without(p.left, i);
    hide Choice, Score, LikenessTo, Step, Optimal;
    WithoutKeepsRest(p.left, i);
  }

  ghost function After(o: Options, scale: real, unique: seq<Entry>, n: nat): (p: Progress)
    requires scale > 0.0 && n <= |unique|
    ensures |p.picks| == n && |p.left| == |unique| - n
  {
    if n == 0 then Progress([], unique) else Step(o, scale, After(o, scale, unique, n - 1))
  }

  function Entries(picks: seq<Pick>): seq<Entry> {
    seq(|picks|, k requires 0 <= k < |picks| => picks[k].entry)
  }

  lemma WithoutKeepsRest<T>(s: seq<T>, i: nat)
    requires i < |s|
    ensures multiset(s) == multiset(Without(s, i)) + multiset{s[i]}
    ensures forall x :: x in Without(s, i) ==> x in s
  {
    assert s == s[..i] + [s[i]] + s[i + 1..];
  }

  lemma MovesOne<T>(a: seq<T>, b: seq<T>, x: T, b': seq<T>)
    requires multiset(b) == multiset(b') + multiset{x}
    ensures multiset(a + [x]) + multiset(b') == multiset(a) + multiset(b)
  {}

  /** Selection moves entries from one list to the other. */
  lemma {:induction false} NothingIsLost(o: Options, scale: real, unique: seq<Entry>, n: nat)
    requires scale > 0.0 && n <= |unique|
    ensures var p := After(o, scale, unique, n);
      multiset(Entries(p.picks)) + multiset(p.left) == multiset(unique)
  {
    if n == 0 {
      assert Entries([]) == [] && After(o, scale, unique, 0) == Progress([], unique);
      hide After, Entries;
    } else {
      hide After, Step, Entries;
      var before, p := After(o, scale, unique, n - 1), After(o, scale, unique, n);
      AfterIs(o, scale, unique, n - 1);
      NothingIsLost(o, scale, unique, n - 1);
      StepMoves(o, scale, before);
      MovesOne(Entries(before.picks), before.left, p.picks[n - 1].entry, p.left);
    }
  }

  /** `late` has picked more of what `early` had left. */
  ghost predicate Extends(early: Progress, late: Progress) {
    && early.picks <= late.picks
    && (forall j :: |early.picks| <= j < |late.picks| ==> late.picks[j].entry in early.left)
    && (forall e :: e in late.left ==> e in early.left)
  }

  lemma ExtendsItself(p: Progress)
    ensures Extends(p, p)
  {}

  /** One entry goes from what was left to the picks. */
  ghost predicate Moved(before: Progress, late: Progress) {
    && |late.picks| == |before.picks| + 1 && late.picks[..|before.picks|] == before.picks
    && late.picks[|before.picks|].entry in before.left
    && forall e :: e in late.left ==> e in before.left
  }

  lemma StepIsMove(o: Options, scale: real, p: Progress)
    requires scale > 0.0 && p.left != []
    ensures Moved(p, Step(o, scale, p))
  {
    hide Step, Entries;
    StepMoves(o, scale, p);
  }

  lemma ExtendsOnce(early: Progress, before: Progress, late: Progress)
    requires Extends(early, before) && Moved(before, late)
    ensures Extends(early, late)
  {
    assert forall j :: 0 <= j < |before.picks| ==> late.picks[j] == late.picks[..|before.picks|][j];
  }

  /** Later steps only extend the picks, and what is picked or left later was left before. */
  lemma AfterIs(o: Options, scale: real, unique: seq<Entry>, n: nat)
    requires scale > 0.0 && n < |unique|
    ensures After(o, scale, unique, n).left != []
    ensures After(o, scale, unique, n + 1) == Step(o, scale, After(o, scale, unique, n))
  {
    hide Step;
  }

  lemma {:induction false} PicksExtend(o: Options, scale: real, unique: seq<Entry>, k: nat, n: nat)
    requires scale > 0.0 && k <= n <= |unique|
    ensures Extends(After(o, scale, unique, k), After(o, scale, unique, n))
  {
    if k < n {
      hide After, Step, Extends, Moved;
      var before, late := After(o, scale, unique, n - 1), After(o, scale, unique, n);
      AfterIs(o, scale, unique, n - 1);
      PicksExtend(o, scale, unique, k, n - 1);
      StepIsMove(o, scale, before);
      ExtendsOnce(After(o, scale, unique, k), before, late);
    } else {
      hide After;
      ExtendsItself(After(o, scale, unique, k));
    }
  }

  lemma StepIsBest(o: Options, scale: real, p: Progress, e: Entry)
    requires scale > 0.0 && p.left != [] && e in p.left
    ensures var pick, selected := Step(o, scale, p).picks[|p.picks|], Chosen(p.picks);
      && pick.position == |p.picks| + 1
      && pick.likeness == LikenessTo(o, selected, pick.entry.candidate)
      && pick.score == Score(o, scale, selected, pick.entry.candidate)
      && pick.penalty == PickWith(o, pick.score, pick.likeness, pick.entry, pick.position).penalty
      && e.candidate.tier <= pick.entry.candidate.tier
      && (e.candidate.tier == pick.entry.candidate.tier ==> Score(o, scale, selected, e.candidate) <= pick.score)
  {
    var i := Choice(o, scale, p.left, Chosen(p.picks));
    hide Choice, Score, LikenessTo, Chosen;
    var m :| 0 <= m < |p.left| && p.left[m] == e;
  }

  ghost predicate Available(p: Progress, k: nat, e: Entry) {
    e in p.left || exists j :: k <= j < |p.picks| && p.picks[j].entry == e
  }

  lemma AvailableEarlier(o: Options, scale: real, unique: seq<Entry>, n: nat, k: nat, e: Entry)
    requires scale > 0.0 && k < n <= |unique| && Available(After(o, scale, unique, n), k, e)
    ensures var late, early := After(o, scale, unique, n), After(o, scale, unique, k);
      && e in early.left && late.picks[..k] == early.picks && |early.picks| == k
      && |Step(o, scale, early).picks| == k + 1 && late.picks[k] == Step(o, scale, early).picks[k]
  {
    var early, next, late := After(o, scale, unique, k), After(o, scale, unique, k + 1), After(o, scale, unique, n);
    hide After, Step, Extends, Available;
    AfterIs(o, scale, unique, k);
    PicksExtend(o, scale, unique, k, n);
    PicksExtend(o, scale, unique, k + 1, n);
    EarlierIs(early, next, late, e);
  }

  lemma EarlierIs(early: Progress, next: Progress, late: Progress, e: Entry)
    requires Extends(early, late) && Extends(next, late) && |next.picks| == |early.picks| + 1
    requires Available(late, |early.picks|, e)
    ensures var k := |early.picks|;
      e in early.left && |late.picks| > k && late.picks[..k] == early.picks && late.picks[k] == next.picks[k]
  {}

  /** Every pick is the best that was still available: no higher tier was left, and in its tier no
      entry, whether it was picked later or not at all, had a higher score against what had been
      selected by then. So tiers never rise. */
  lemma EachPickIsBest(o: Options, scale: real, unique: seq<Entry>, n: nat, k: nat, e: Entry)
    requires scale > 0.0 && k < n <= |unique| && Available(After(o, scale, unique, n), k, e)
    ensures var picks := After(o, scale, unique, n).picks;
      && picks[k].position == k + 1
      && picks[k].likeness == LikenessTo(o, Chosen(picks[..k]), picks[k].entry.candidate)
      && picks[k].score == Score(o, scale, Chosen(picks[..k]), picks[k].entry.candidate)
      && picks[k].penalty == PickWith(o, picks[k].score, picks[k].likeness, picks[k].entry, picks[k].position).penalty
      && e.candidate.tier <= picks[k].entry.candidate.tier
      && (e.candidate.tier == picks[k].entry.candidate.tier ==>
            Score(o, scale, Chosen(picks[..k]), e.candidate) <= picks[k].score)
  {
    var early := After(o, scale, unique, k);
    hide *;
    AvailableEarlier(o, scale, unique, n, k, e);
    StepIsBest(o, scale, early, e);
  }

  /** Tiers never rise, and whatever is cut off by the limit is of the last pick's tier or below. */
  lemma TiersNeverRise(o: Options, scale: real, unique: seq<Entry>, n: nat)
    requires scale > 0.0 && n <= |unique|
    ensures var p := After(o, scale, unique, n);
      && (forall i, j :: 0 <= i < j < n ==> p.picks[j].entry.candidate.tier <= p.picks[i].entry.candidate.tier)
      && (forall i, e :: 0 <= i < n && e in p.left ==> e.candidate.tier <= p.picks[i].entry.candidate.tier)
  {
    var p := After(o, scale, unique, n);
    forall i, j | 0 <= i < j < n ensures p.picks[j].entry.candidate.tier <= p.picks[i].entry.candidate.tier {
      EachPickIsBest(o, scale, unique, n, i, p.picks[j].entry);
    }
    forall i, e | 0 <= i < n && e in p.left ensures e.candidate.tier <= p.picks[i].entry.candidate.tier {
      EachPickIsBest(o, scale, unique, n, i, e);
    }
  }

  // ---------------------------------------------------------------- the loop

  ghost predicate Kept(o: Options, selected: seq<Candidate>, unique: seq<Entry>, similarities: seq<Likeness>) {
    && |similarities| == |unique|
    && forall i :: 0 <= i < |unique| ==> similarities[i] == LikenessTo(o, selected, unique[i].candidate)
  }

  method HighestTier(unique: seq<Entry>) returns (tier: nat)
    requires unique != []
    ensures TopTier(unique, tier)
  {
    tier := unique[0].candidate.tier;
    for i := 1 to |unique|
      invariant forall j :: 0 <= j < i ==> unique[j].candidate.tier <= tier
      invariant exists j :: 0 <= j < i && unique[j].candidate.tier == tier
    {
      if unique[i].candidate.tier > tier {
        tier := unique[i].candidate.tier;
      }
    }
  }

  /** One scan over the remaining candidates, with the similarities kept so far. */
  method FindBest(o: Options, scale: real, unique: seq<Entry>, similarities: seq<Likeness>, ghost selected: seq<Candidate>)
    returns (best: nat, score: real)
    requires scale > 0.0 && unique != [] && Kept(o, selected, unique, similarities)
    ensures best < |unique| && Optimal(o, scale, unique, selected, best) && score == Score(o, scale, selected, unique[best].candidate)
  {
    var tier := HighestTier(unique);
    var found := false;
    best, score := 0, 0.0;
    for i := 0 to |unique|
      invariant !found ==> forall j :: 0 <= j < i ==> unique[j].candidate.tier != tier
      invariant found ==> BestUpTo(o, scale, unique, selected, tier, i, best)
                          && score == Score(o, scale, selected, unique[best].candidate)
    {
      if unique[i].candidate.tier != tier {
        continue;
      }
      var s := ScoreWith(o, scale, similarities[i], unique[i].candidate);
      assert s == Score(o, scale, selected, unique[i].candidate);
      hide Score, ScoreWith;
      if !found || s > score {
        found, best, score := true, i, s;
      }
    }
  }

  method Update(o: Options, ghost selected: seq<Candidate>, c: Candidate, unique: seq<Entry>, similarities: seq<Likeness>)
    returns (updated: seq<Likeness>)
    requires o.mmr && Kept(o, selected, unique, similarities)
    ensures Kept(o, selected + [c], unique, updated)
  {
    updated := [];
    for i := 0 to |unique|
      invariant |updated| == i
      invariant forall k :: 0 <= k < i ==> updated[k] == Closest(selected + [c], unique[k].candidate)
    {
      var lexical := WeightedJaccard(c.salient, unique[i].candidate.salient);
      var structure := Structural(c, unique[i].candidate);
      var combined := More(lexical, structure);
      assert (selected + [c])[..|selected|] == selected;
      assert Likeness(combined, lexical, structure) == Pair(c, unique[i].candidate);
      updated := updated + [if combined > similarities[i].combined then Likeness(combined, lexical, structure) else similarities[i]];
      hide IsClosest, Pair;
    }
  }

  /** The scale that makes relevance relative: the greatest, and never zero. */
  method Scale(unique: seq<Entry>) returns (scale: real)
    ensures scale >= EPSILON > 0.0
    ensures forall i :: 0 <= i < |unique| ==> unique[i].candidate.relevance <= scale
    ensures scale == EPSILON || exists i :: 0 <= i < |unique| && unique[i].candidate.relevance == scale
  {
    scale := 0.0;
    for i := 0 to |unique|
      invariant scale >= 0.0 && forall k :: 0 <= k < i ==> unique[k].candidate.relevance <= scale
      invariant scale == 0.0 || exists k :: 0 <= k < i && unique[k].candidate.relevance == scale
    {
      scale := More(scale, unique[i].candidate.relevance);
    }
    scale := More(scale, EPSILON);
  }

  function Limit(limit: nat): nat {
    Min(limit, CANDIDATE_LIMIT)
  }

  lemma StepIs(o: Options, scale: real, p: Progress, best: nat, similarities: seq<Likeness>)
    requires scale > 0.0 && p.left != [] && Kept(o, Chosen(p.picks), p.left, similarities)
    requires Optimal(o, scale, p.left, Chosen(p.picks), best)
    ensures var selected, c := Chosen(p.picks), p.left[best].candidate;
      Step(o, scale, p) == Progress(p.picks + [PickWith(o, Score(o, scale, selected, c), similarities[best], p.left[best], |p.picks| + 1)],
                                    Without(p.left, best))
  {
    OptimalIsUnique(o, scale, p.left, Chosen(p.picks), best, Choice(o, scale, p.left, Chosen(p.picks)));
    hide Optimal, Choice, LikenessTo, Score, PickWith;
  }

  lemma DropKeeps(o: Options, selected: seq<Candidate>, unique: seq<Entry>, similarities: seq<Likeness>, i: nat)
    requires Kept(o, selected, unique, similarities) && i < |unique|
    ensures Kept(o, selected, Without(unique, i), Without(similarities, i))
  {
    hide LikenessTo;
  }

  lemma ChosenPush(picks: seq<Pick>, pick: Pick)
    ensures Chosen(picks + [pick]) == Chosen(picks) + [pick.entry.candidate]
  {}

  lemma SelectBegins(o: Options, scale: real, unique: seq<Entry>, similarities: seq<Likeness>)
    requires scale > 0.0 && |similarities| == |unique| && forall i :: 0 <= i < |unique| ==> similarities[i] == APART
    ensures Progress([], unique) == After(o, scale, unique, 0)
    ensures Kept(o, Chosen([]), unique, similarities)
  {
    assert Chosen([]) == [];
  }

  lemma PickIs(o: Options, score: real, likeness: Likeness, entry: Entry, position: nat)
    ensures PickWith(o, score, likeness, entry, position).entry == entry
  {}

  lemma KeptApart(o: Options, selected: seq<Candidate>, more: seq<Candidate>, unique: seq<Entry>, similarities: seq<Likeness>)
    requires !o.mmr && Kept(o, selected, unique, similarities)
    ensures Kept(o, more, unique, similarities)
  {}

  lemma KeptSize(o: Options, selected: seq<Candidate>, unique: seq<Entry>, similarities: seq<Likeness>)
    requires Kept(o, selected, unique, similarities)
    ensures |similarities| == |unique|
  {}

  /** After some picks: the remaining entries, each with its similarity to what has been selected. */
  ghost predicate Selecting(o: Options, scale: real, unique: seq<Entry>, selected: seq<Pick>, remaining: seq<Entry>, similarities: seq<Likeness>)
    requires scale > 0.0
  {
    && |selected| + |remaining| == |unique|
    && Progress(selected, remaining) == After(o, scale, unique, |selected|)
    && Kept(o, Chosen(selected), remaining, similarities)
  }

  method SelectOne(o: Options, scale: real, ghost unique: seq<Entry>, selected: seq<Pick>, remaining: seq<Entry>, similarities: seq<Likeness>)
    returns (selected': seq<Pick>, remaining': seq<Entry>, similarities': seq<Likeness>)
    requires scale > 0.0 && remaining != [] && Selecting(o, scale, unique, selected, remaining, similarities)
    ensures |selected'| == |selected| + 1 && Selecting(o, scale, unique, selected', remaining', similarities')
  {
    hide Step, Optimal, LikenessTo, Score, After, PickWith, Chosen, Kept;
    KeptSize(o, Chosen(selected), remaining, similarities);
    var best, score := FindBest(o, scale, remaining, similarities, Chosen(selected));
    var pick := PickWith(o, score, similarities[best], remaining[best], |selected| + 1);
    StepIs(o, scale, Progress(selected, remaining), best, similarities);
    AfterIs(o, scale, unique, |selected|);
    DropKeeps(o, Chosen(selected), remaining, similarities, best);
    ChosenPush(selected, pick);
    PickIs(o, score, similarities[best], remaining[best], |selected| + 1);
    remaining' := Without(remaining, best);
    similarities' := Without(similarities, best);
    if o.mmr {
      similarities' := Update(o, Chosen(selected), pick.entry.candidate, remaining', similarities');
    } else {
      KeptApart(o, Chosen(selected), Chosen(selected + [pick]), remaining', similarities');
    }
    selected' := selected + [pick];
  }

  /** The loop with kept similarities makes the greedy selection. */
  method Select(o: Options, scale: real, unique: seq<Entry>, limit: nat) returns (selected: seq<Pick>)
    requires scale > 0.0
    ensures |selected| == Min(Min(limit, CANDIDATE_LIMIT), |unique|)
    ensures selected == After(o, scale, unique, |selected|).picks
  {
    hide After, Chosen, Kept;
    selected := [];
    var remaining := unique;
    var similarities := seq(|unique|, _ => APART);
    SelectBegins(o, scale, unique, similarities);
    while remaining != [] && |selected| < Limit(limit)
      invariant |selected| <= Limit(limit) && Selecting(o, scale, unique, selected, remaining, similarities)
      decreases |remaining|
    {
      selected, remaining, similarities := SelectOne(o, scale, unique, selected, remaining, similarities);
    }
  }

  // ---------------------------------------------------------------- the whole reranking

  /** How an answer came about: the candidates in order, what was left after collapsing, the scale. */
  ghost predicate RankedBy(candidates: seq<Candidate>, o: Options, sorted: seq<Candidate>, unique: seq<Entry>, scale: real) {
    && Sorted(sorted) && multiset(sorted) == multiset(candidates)
    && (o.dedupe ==> Deduped(sorted, unique))
    && (!o.dedupe ==> |unique| == |sorted| && forall i :: 0 <= i < |unique| ==> unique[i] == Entry(sorted[i], []))
    && scale >= EPSILON
    && (forall i :: 0 <= i < |unique| ==> unique[i].candidate.relevance <= scale)
    && (scale == EPSILON || exists i :: 0 <= i < |unique| && unique[i].candidate.relevance == scale)
  }

  method Rerank(candidates: seq<Candidate>, o: Options, limit: nat) returns (selected: seq<Pick>)
    ensures exists sorted, unique, scale ::
      && RankedBy(candidates, o, sorted, unique, scale)
      && |selected| == Min(Min(limit, CANDIDATE_LIMIT), |unique|)
      && selected == After(o, scale, unique, |selected|).picks
  {
    hide Sorted, Deduped, After;
    var sorted := Ranking.Sort(candidates);
    var unique := Dedupe(sorted, o);
    var scale := Scale(unique);
    selected := Select(o, scale, unique, limit);
    assert RankedBy(candidates, o, sorted, unique, scale);
  }

  lemma MultisetAround<T>(before: seq<T>, x: T, behind: seq<T>)
    ensures multiset(before + [x] + behind) == multiset(before + behind) + multiset{x}
  {}

  lemma MultisetCancel<T>(a: multiset<T>, b: multiset<T>, x: T)
    requires a + multiset{x} == b + multiset{x}
    ensures a == b
  {
    assert a == (a + multiset{x}) - multiset{x};
    assert b == (b + multiset{x}) - multiset{x};
  }

  lemma IndexOf<T>(s: seq<T>, x: T) returns (i: nat)
    requires x in multiset(s)
    ensures i < |s| && s[i] == x
  {
    i :| i < |s| && s[i] == x;
  }

  /** Takes the last element of `a` out of a permutation of it. */
  lemma Unpermute<T>(a: seq<T>, b: seq<T>) returns (before: seq<T>, behind: seq<T>)
    requires multiset(a) == multiset(b) && a != []
    ensures b == before + [a[|a| - 1]] + behind && multiset(a[..|a| - 1]) == multiset(before + behind)
  {
    var front, last := a[..|a| - 1], a[|a| - 1];
    assert last in a && last in multiset(a);
    var i := IndexOf(b, last);
    before, behind := b[..i], b[i + 1..];
    assert a == front + [last] + [] && front + [] == front;
    assert b == before + [last] + behind;
    MultisetAround(front, last, []);
    MultisetAround(before, last, behind);
    MultisetCancel(multiset(front), multiset(before + behind), last);
  }

  lemma {:induction false} IdsPermuted(a: seq<Entry>, b: seq<Entry>)
    requires multiset(a) == multiset(b)
    ensures Ids(a) == Ids(b)
    decreases |a|
  {
    if a == [] {
      assert |multiset(b)| == |b|;
    } else {
      var before, behind := Unpermute(a, b);
      var front, last := a[..|a| - 1], a[|a| - 1];
      assert Ids([last]) == IdsIn(last) && Ids(a) == Ids(front) + IdsIn(last);
      hide Ids, IdsIn;
      IdsPermuted(front, before + behind);
      IdsAppend(before + [last], behind);
      IdsAppend(before, [last]);
      IdsAppend(before, behind);
    }
  }

  lemma {:induction false} IdsOfAppend(a: seq<Candidate>, b: seq<Candidate>)
    ensures IdsOf(a + b) == IdsOf(a) + IdsOf(b)
  {
    if b == [] {
      assert a + b == a;
    } else {
      var front, last := b[..|b| - 1], b[|b| - 1];
      assert a + b == (a + front) + [last] && b == front + [last];
      IdsOfPush(a + front, last);
      IdsOfPush(front, last);
      hide IdsOf;
      IdsOfAppend(a, front);
    }
  }

  lemma {:induction false} IdsOfPermuted(a: seq<Candidate>, b: seq<Candidate>)
    requires multiset(a) == multiset(b)
    ensures IdsOf(a) == IdsOf(b)
    decreases |a|
  {
    if a == [] {
      assert |multiset(b)| == |b|;
    } else {
      var before, behind := Unpermute(a, b);
      var front, last := a[..|a| - 1], a[|a| - 1];
      assert a == front + [last];
      hide IdsOf;
      IdsOfPermuted(front, before + behind);
      IdsOfPush(front, last);
      IdsOfPush(before, last);
      IdsOfAppend(before + [last], behind);
      IdsOfAppend(before, behind);
    }
  }

  lemma {:induction false} UncollapsedIds(unique: seq<Entry>, candidates: seq<Candidate>)
    requires |unique| == |candidates| && forall i :: 0 <= i < |unique| ==> unique[i] == Entry(candidates[i], [])
    ensures Ids(unique) == IdsOf(candidates)
  {
    if unique != [] {
      var last := |unique| - 1;
      UncollapsedIds(unique[..last], candidates[..last]);
      assert IdsIn(unique[last]) == multiset{candidates[last].id};
      assert Ids(unique) == Ids(unique[..last]) + IdsIn(unique[last]);
      assert IdsOf(candidates) == IdsOf(candidates[..last]) + multiset{candidates[last].id};
      hide *;
    }
  }

  /** Every candidate is there exactly once: picked, collapsed into a representative, or, when the
      limit cut the answer short, with what was left. Within the limit nothing is left. */
  lemma EveryCandidateOnce(candidates: seq<Candidate>, o: Options, sorted: seq<Candidate>, unique: seq<Entry>, scale: real, n: nat)
    requires RankedBy(candidates, o, sorted, unique, scale) && n <= |unique|
    ensures var p := After(o, scale, unique, n);
      && Ids(Entries(p.picks)) + Ids(p.left) == IdsOf(candidates)
      && (n == |unique| ==> Ids(Entries(p.picks)) == IdsOf(candidates))
  {
    var p := After(o, scale, unique, n);
    NothingIsLost(o, scale, unique, n);
    assert n == |unique| ==> p.left == [] && Ids(p.left) == multiset{};
    if !o.dedupe {
      UncollapsedIds(unique, sorted);
    }
    assert Ids(unique) == IdsOf(sorted);
    hide *;
    IdsOfPermuted(sorted, candidates);
    IdsPermuted(Entries(p.picks) + p.left, unique);
    IdsAppend(Entries(p.picks), p.left);
  }

  /** The first pick is the most relevant candidate of the highest tier. */
  lemma FirstPickIsMostRelevant(candidates: seq<Candidate>, o: Options, sorted: seq<Candidate>, unique: seq<Entry>, scale: real, n: nat, e: Entry)
    requires RankedBy(candidates, o, sorted, unique, scale) && 0 < n <= |unique| && e in unique
    ensures var first := After(o, scale, unique, n).picks[0].entry.candidate;
      && e.candidate.tier <= first.tier
      && (e.candidate.tier == first.tier ==> e.candidate.relevance <= first.relevance)
  {
    var start := After(o, scale, unique, 0);
    var i := Choice(o, scale, unique, []);
    assert Chosen([]) == [];
    PicksExtend(o, scale, unique, 1, n);
    assert After(o, scale, unique, 1) == Step(o, scale, start);
    assert After(o, scale, unique, n).picks[0] == After(o, scale, unique, 1).picks[0];
    var k :| 0 <= k < |unique| && unique[k] == e;
    if e.candidate.tier == unique[i].candidate.tier {
      assert Score(o, scale, [], e.candidate) <= Score(o, scale, [], unique[i].candidate);
      ScaleIsMonotone(o, scale, e.candidate, unique[i].candidate);
    }
  }

  // ---------------------------------------------------------------- what a pick costs

  /** The greatest similarity, by vocabulary or by place, to anything picked before; none is zero. */
  ghost predicate Greatest(selected: seq<Candidate>, c: Candidate, x: real) {
    && x >= 0.0
    && (forall k :: 0 <= k < |selected| ==> Jaccard(selected[k].salient, c.salient) <= x && Structural(selected[k], c) <= x)
    && (x == 0.0 || exists k :: 0 <= k < |selected| && (Jaccard(selected[k].salient, c.salient) == x || Structural(selected[k], c) == x))
  }

  lemma GreatestIsUnique(selected: seq<Candidate>, c: Candidate, x: real, y: real)
    requires Greatest(selected, c, x) && Greatest(selected, c, y)
    ensures x == y
  {
    hide Structural, Jaccard;
  }

  lemma ClosestIsGreatest(selected: seq<Candidate>, c: Candidate)
    ensures Greatest(selected, c, Closest(selected, c).combined)
  {
    ClosestIsClosest(selected, c);
    hide Structural, Jaccard, Closest;
    var best := Closest(selected, c);
    if best != APART {
      var k :| 0 <= k < |selected| && best == Pair(selected[k], c) && best.combined > 0.0;
      assert Jaccard(selected[k].salient, c.salient) == best.combined || Structural(selected[k], c) == best.combined;
    }
    forall k | 0 <= k < |selected|
      ensures Jaccard(selected[k].salient, c.salient) <= best.combined && Structural(selected[k], c) <= best.combined
    {
      assert Pair(selected[k], c).combined <= best.combined;
    }
  }

  lemma Outweighs(o: Options, scale: real, selected: seq<Candidate>, pick: Candidate, other: Candidate, x: real, y: real)
    requires scale > 0.0 && o.mmr && Greatest(selected, pick, x) && Greatest(selected, other, y)
    requires Score(o, scale, selected, other) <= Score(o, scale, selected, pick)
    ensures MMR_LAMBDA * (other.relevance - pick.relevance) <= (1.0 - MMR_LAMBDA) * (y - x) * scale
    ensures other.relevance == pick.relevance ==> x <= y
    ensures y <= x ==> other.relevance <= pick.relevance
  {
    hide Greatest, Closest;
    ClosestIsGreatest(selected, pick);
    ClosestIsGreatest(selected, other);
    GreatestIsUnique(selected, pick, x, Closest(selected, pick).combined);
    GreatestIsUnique(selected, other, y, Closest(selected, other).combined);
    Exchange(other.relevance, pick.relevance, y, x, scale);
  }

  /** A lead in relevance is weighed against a lack of similarity: whatever else was available in the
      pick's tier exceeds it in relevance by no more than it exceeds it in similarity to the picks so
      far, at the exchange rate of the two shares. Hence of equally relevant candidates the pick is
      not the more similar one, and of equally similar ones not the less relevant one. */
  lemma SimilarityCounts(o: Options, scale: real, unique: seq<Entry>, n: nat, k: nat, e: Entry, x: real, y: real)
    requires scale > 0.0 && k < n <= |unique| && Available(After(o, scale, unique, n), k, e) && o.mmr
    requires var picks := After(o, scale, unique, n).picks;
      && e.candidate.tier == picks[k].entry.candidate.tier
      && Greatest(Chosen(picks[..k]), picks[k].entry.candidate, x) && Greatest(Chosen(picks[..k]), e.candidate, y)
    ensures var pick := After(o, scale, unique, n).picks[k].entry.candidate;
      && MMR_LAMBDA * (e.candidate.relevance - pick.relevance) <= (1.0 - MMR_LAMBDA) * (y - x) * scale
      && (e.candidate.relevance == pick.relevance ==> x <= y)
      && (x == y ==> e.candidate.relevance <= pick.relevance)
      && (y <= x ==> e.candidate.relevance <= pick.relevance)
  {
    hide *;
    EachPickIsBest(o, scale, unique, n, k, e);
    var picks := After(o, scale, unique, n).picks;
    Outweighs(o, scale, Chosen(picks[..k]), picks[k].entry.candidate, e.candidate, x, y);
  }

  lemma PickWasAvailable(p: Progress, k: nat)
    requires k < |p.picks|
    ensures Available(p, k, p.picks[k].entry)
  {}

  lemma Explained(o: Options, scale: real, selected: seq<Candidate>, pick: Pick, x: real)
    requires scale > 0.0 && Greatest(selected, pick.entry.candidate, x)
    requires pick.likeness == LikenessTo(o, selected, pick.entry.candidate)
    requires pick.score == Score(o, scale, selected, pick.entry.candidate)
    requires pick.penalty == PickWith(o, pick.score, pick.likeness, pick.entry, pick.position).penalty
    ensures pick.score == (if o.mmr then MMR_LAMBDA else 1.0) * pick.entry.candidate.relevance / scale - pick.penalty
    ensures pick.penalty == (if o.mmr then (1.0 - MMR_LAMBDA) * x else 0.0)
  {
    hide Greatest, Closest;
    ClosestIsGreatest(selected, pick.entry.candidate);
    GreatestIsUnique(selected, pick.entry.candidate, x, Closest(selected, pick.entry.candidate).combined);
  }

  /** The trace of a pick: its score is its share of relevance less its penalty, and the penalty is
      the share of its greatest similarity. Without diversity the score is relevance alone. */
  lemma PickIsExplained(o: Options, scale: real, unique: seq<Entry>, n: nat, k: nat, x: real)
    requires scale > 0.0 && k < n <= |unique|
    requires var picks := After(o, scale, unique, n).picks; Greatest(Chosen(picks[..k]), picks[k].entry.candidate, x)
    ensures var pick := After(o, scale, unique, n).picks[k];
      && pick.score == (if o.mmr then MMR_LAMBDA else 1.0) * pick.entry.candidate.relevance / scale - pick.penalty
      && pick.penalty == (if o.mmr then (1.0 - MMR_LAMBDA) * x else 0.0)
  {
    hide *;
    var picks := After(o, scale, unique, n).picks;
    PickWasAvailable(After(o, scale, unique, n), k);
    EachPickIsBest(o, scale, unique, n, k, picks[k].entry);
    Explained(o, scale, Chosen(picks[..k]), picks[k], x);
  }

  // ---------------------------------------------------------------- without diversity

  /** In order of tier, then relevance, then identifier, each the better first but identifiers in
      lexicographic order. */
  ghost predicate InOrder(a: Candidate, b: Candidate) {
    && b.tier <= a.tier
    && (b.tier == a.tier ==> b.relevance <= a.relevance)
    && (b.tier == a.tier && b.relevance == a.relevance ==> IdLeq(a.id, b.id))
  }

  ghost predicate AllInOrder(entries: seq<Entry>) {
    forall i, j :: 0 <= i < j < |entries| ==> InOrder(entries[i].candidate, entries[j].candidate)
  }

  lemma RankedIsInOrder(candidates: seq<Candidate>, o: Options, sorted: seq<Candidate>, unique: seq<Entry>, scale: real)
    requires RankedBy(candidates, o, sorted, unique, scale)
    ensures AllInOrder(unique)
  {}

  lemma FirstIsChosen(o: Options, scale: real, remaining: seq<Entry>, selected: seq<Candidate>)
    requires !o.mmr && scale > 0.0 && remaining != [] && AllInOrder(remaining)
    ensures Choice(o, scale, remaining, selected) == 0
  {
    var first := remaining[0].candidate;
    forall j | 0 <= j < |remaining| && remaining[j].candidate.tier == first.tier
      ensures Score(o, scale, selected, remaining[j].candidate) <= Score(o, scale, selected, first)
    {
      if j > 0 {
        Divided(remaining[j].candidate.relevance, first.relevance, scale);
      }
    }
    assert TopTier(remaining, first.tier);
    hide Score, Choice;
    OptimalIsUnique(o, scale, remaining, selected, 0, Choice(o, scale, remaining, selected));
  }

  lemma Divided(x: real, y: real, scale: real)
    requires x <= y && scale > 0.0
    ensures x / scale <= y / scale
  {}

  lemma FirstMoves(o: Options, scale: real, before: Progress, unique: seq<Entry>, n: nat)
    requires !o.mmr && scale > 0.0 && n < |unique| && AllInOrder(unique)
    requires before.left == unique[n..] && Entries(before.picks) == unique[..n]
    ensures var p := Step(o, scale, before); Entries(p.picks) == unique[..n + 1] && p.left == unique[n + 1..]
  {
    StepMoves(o, scale, before);
    assert AllInOrder(before.left) by { hide InOrder; }
    FirstIsChosen(o, scale, before.left, Chosen(before.picks));
    var p := Step(o, scale, before);
    assert p.left == Without(before.left, 0) && p.picks[|before.picks|].entry == before.left[0];
    hide *;
    RestOf(before.left);
    assert unique[..n + 1] == unique[..n] + [unique[n]];
  }

  lemma RestOf(s: seq<Entry>)
    requires s != []
    ensures Without(s, 0) == s[1..]
  {}

  /** Without diversity the answer is the ranking itself: relevance alone decides within a tier, and
      equal relevance is in order of identifiers. */
  lemma {:induction false} WithoutDiversity(o: Options, scale: real, unique: seq<Entry>, n: nat)
    requires !o.mmr && scale > 0.0 && n <= |unique| && AllInOrder(unique)
    ensures var p := After(o, scale, unique, n); Entries(p.picks) == unique[..n] && p.left == unique[n..]
  {
    if n == 0 {
      assert After(o, scale, unique, 0) == Progress([], unique);
    } else {
      hide *;
      AfterIs(o, scale, unique, n - 1);
      WithoutDiversity(o, scale, unique, n - 1);
      FirstMoves(o, scale, After(o, scale, unique, n - 1), unique, n - 1);
    }
  }

  lemma Exchange(r: real, s: real, y: real, x: real, scale: real)
    requires scale > 0.0
    requires MMR_LAMBDA * r / scale - (1.0 - MMR_LAMBDA) * y <= MMR_LAMBDA * s / scale - (1.0 - MMR_LAMBDA) * x
    ensures MMR_LAMBDA * (r - s) <= (1.0 - MMR_LAMBDA) * (y - x) * scale
    ensures r == s ==> x <= y
    ensures y <= x ==> r <= s
  {
    var a, b := MMR_LAMBDA * r / scale, MMR_LAMBDA * s / scale;
    assert a * scale == MMR_LAMBDA * r && b * scale == MMR_LAMBDA * s;
    var d := (1.0 - MMR_LAMBDA) * (y - x);
    assert a - b <= d;
    Scaled(a - b, d, scale);
    assert (a - b) * scale == a * scale - b * scale;
    if y <= x { Scaled(d, 0.0, scale); }
  }

  lemma Scaled(x: real, y: real, scale: real)
    requires x <= y && scale > 0.0
    ensures x * scale <= y * scale
  {}

  lemma ScaleIsMonotone(o: Options, scale: real, a: Candidate, b: Candidate)
    requires scale > 0.0 && ScoreWith(o, scale, APART, a) <= ScoreWith(o, scale, APART, b)
    ensures a.relevance <= b.relevance
  {
    var x, y := a.relevance, b.relevance;
    if o.mmr {
      assert MMR_LAMBDA * x / scale <= MMR_LAMBDA * y / scale;
      DivideBack(MMR_LAMBDA * x, MMR_LAMBDA * y, scale);
    } else {
      DivideBack(x, y, scale);
    }
  }

  lemma DivideBack(x: real, y: real, scale: real)
    requires scale > 0.0 && x / scale <= y / scale
    ensures x <= y
  {
    assert x == x / scale * scale && y == y / scale * scale;
  }
}
