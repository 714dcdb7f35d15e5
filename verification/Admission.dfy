/** Which retrieved candidates may be ranked: under a hard cap, three reservations for the best of
    certain classes, then the best of the rest. */
module Admission {
  import opened Options
  import opened Collections
  import opened Identifiers
  import opened Lanes
  import Ranking

  const CANDIDATE_LIMIT := Ranking.CANDIDATE_LIMIT
  const DEFINITION_RESERVE := 40
  const MEANINGFUL_RESERVE := 40
  const EXPANSION_RESERVE := 40

  /** `exact` says whether a path is the one the query spells out. */
  datatype Query = Query(pathClass: bool, exact: string -> bool)

  // ---------------------------------------------------------------- orders

  datatype Order = ByDefinition | ByMeaningful | ByExpansion | ByMain

  /** Compared from left to right, the greater first, but identifiers the lesser first. */
  datatype Key = Key(first: bool, second: bool, score: real, id: string)

  function OrZero(score: Option<real>): real {
    if score.Some? then score.value else 0.0
  }

  function KeyOf(q: Query, o: Order, c: Retrieved): Key {
    match o
    case ByDefinition => Key(false, false, OrZero(c.bm25), c.id)
    case ByMeaningful => Key(false, false, OrZero(c.evidence.meaningful), c.id)
    case ByExpansion => Key(q.exact(c.path), false, OrZero(c.evidence.expansion), c.id)
    case ByMain => Key(q.pathClass && q.exact(c.path), c.bm25.Some?, OrZero(c.bm25), c.id)
  }

  predicate KeyLeq(a: Key, b: Key) {
    if a.first != b.first then a.first
    else if a.second != b.second then a.second
    else if a.score != b.score then a.score > b.score
    else IdLeq(a.id, b.id)
  }

  predicate Leq(q: Query, o: Order, a: Retrieved, b: Retrieved) {
    KeyLeq(KeyOf(q, o, a), KeyOf(q, o, b))
  }

  lemma LeqIsOrder(q: Query, o: Order, a: Retrieved, b: Retrieved, c: Retrieved)
    ensures Leq(q, o, a, b) || Leq(q, o, b, a)
    ensures Leq(q, o, a, b) && Leq(q, o, b, c) ==> Leq(q, o, a, c)
    ensures Leq(q, o, a, b) && Leq(q, o, b, a) ==> a.id == b.id
  {
    var x, y, z := KeyOf(q, o, a), KeyOf(q, o, b), KeyOf(q, o, c);
    assert x.id == a.id && y.id == b.id;
    hide KeyOf, IdLeq;
    IdTotal(x.id, y.id);
    if IdLeq(x.id, y.id) && IdLeq(y.id, z.id) { IdTransitive(x.id, y.id, z.id); }
    if IdLeq(x.id, y.id) && IdLeq(y.id, x.id) { IdAntisymmetric(x.id, y.id); }
  }

  // ---------------------------------------------------------------- the best of a class

  ghost predicate DistinctIds(all: set<Retrieved>) {
    forall a, b :: a in all && b in all && a.id == b.id ==> a == b
  }

  /** `top` are the first `n` of `all`, or all of them if there are fewer. */
  ghost predicate IsTop(q: Query, o: Order, all: set<Retrieved>, n: nat, top: set<Retrieved>) {
    && top <= all
    && |top| == (if n <= |all| then n else |all|)
    && forall a, b :: a in top && b in all - top ==> Leq(q, o, a, b)
  }

  lemma DifferBothWays<T>(s: set<T>, t: set<T>) returns (a: T, b: T)
    requires |s| == |t| && s != t
    ensures a in s - t && b in t - s
  {
    assert s == s * t + (s - t) && t == s * t + (t - s);
    if s <= t { SubsetSize(s, t); }
    if t <= s { SubsetSize(t, s); }
    a, b :| a in s - t && b in t - s;
  }

  lemma TopIsUnique(q: Query, o: Order, all: set<Retrieved>, n: nat, s: set<Retrieved>, t: set<Retrieved>)
    requires DistinctIds(all) && IsTop(q, o, all, n, s) && IsTop(q, o, all, n, t)
    ensures s == t
  {
    hide Leq;
    if s != t {
      var a, b := DifferBothWays(s, t);
      LeqIsOrder(q, o, a, b, a);
      assert false;
    }
  }

  ghost predicate IsLast(q: Query, o: Order, all: set<Retrieved>, last: Retrieved) {
    last in all && forall a :: a in all ==> Leq(q, o, a, last)
  }

  lemma {:induction false} LastExists(q: Query, o: Order, all: set<Retrieved>)
    requires all != {}
    ensures exists last :: IsLast(q, o, all, last)
  {
    hide Leq;
    var x :| x in all;
    var rest := all - {x};
    LeqIsOrder(q, o, x, x, x);
    assert all == rest + {x};
    if rest != {} {
      LastExists(q, o, rest);
      var y :| IsLast(q, o, rest, y);
      LastOfMore(q, o, rest, y, x);
    } else {
      assert IsLast(q, o, all, x);
    }
  }

  lemma LastOfMore(q: Query, o: Order, all: set<Retrieved>, last: Retrieved, x: Retrieved)
    requires IsLast(q, o, all, last)
    ensures exists next :: IsLast(q, o, all + {x}, next)
  {
    hide Leq;
    LeqIsOrder(q, o, x, last, x);
    LeqIsOrder(q, o, x, x, x);
    if Leq(q, o, x, last) {
      assert IsLast(q, o, all + {x}, last);
    } else {
      forall a | a in all + {x} ensures Leq(q, o, a, x) {
        LeqIsOrder(q, o, a, last, x);
      }
      assert IsLast(q, o, all + {x}, x);
    }
  }

  lemma {:induction false} TopExists(q: Query, o: Order, all: set<Retrieved>, n: nat)
    ensures exists top :: IsTop(q, o, all, n, top)
  {
    if |all| <= n {
      assert IsTop(q, o, all, n, all);
    } else {
      LastExists(q, o, all);
      hide Leq;
      var last :| IsLast(q, o, all, last);
      TopExists(q, o, all - {last}, n);
      var top :| IsTop(q, o, all - {last}, n, top);
      assert IsTop(q, o, all, n, top);
    }
  }

  ghost function Top(q: Query, o: Order, all: set<Retrieved>, n: nat): (top: set<Retrieved>)
    ensures IsTop(q, o, all, n, top)
  {
    TopExists(q, o, all, n);
    var top :| IsTop(q, o, all, n, top);
    top
  }

  /** Whoever is among the best of many is among as many best of fewer. */
  lemma TopOfFewer(q: Query, o: Order, all: set<Retrieved>, n: nat, fewer: set<Retrieved>, m: nat, c: Retrieved)
    requires DistinctIds(all) && fewer <= all && n <= m && c in fewer && c in Top(q, o, all, n)
    ensures c in Top(q, o, fewer, m)
  {
    var s, t := Top(q, o, all, n), Top(q, o, fewer, m);
    hide Leq;
    if c !in t {
      SubsetSize(t, fewer);
      assert |t| == m;
      forall b | b in t ensures b in s {
        if b !in s { LeqIsOrder(q, o, b, c, b); }
      }
      SubsetSize(t + {c}, s);
    }
  }

  // ---------------------------------------------------------------- who is admitted

  datatype Class = Declaring | Telling | Supplemental

  predicate In(class': Class, c: Retrieved) {
    match class'
    case Declaring => c.evidence.definition
    case Telling => c.evidence.meaningful.Some?
    case Supplemental => c.bm25.None?
  }

  function Of(class': Class, all: set<Retrieved>): set<Retrieved> {
    set c | c in all && In(class', c)
  }

  ghost predicate Supplements(all: set<Retrieved>, weak: bool) {
    weak && exists c :: c in all && c.evidence.expansion.Some?
  }

  datatype Reserves = Reserves(definitions: set<Retrieved>, meaningful: set<Retrieved>, expansion: set<Retrieved>) {
    function All(): set<Retrieved> {
      definitions + meaningful + expansion
    }
  }

  /** Each reservation takes the best of its class that the ones before it left. */
  ghost function ReservesOf(q: Query, all: set<Retrieved>, weak: bool): Reserves {
    var d := Top(q, ByDefinition, Of(Declaring, all), DEFINITION_RESERVE);
    var m := Top(q, ByMeaningful, Of(Telling, all - d), MEANINGFUL_RESERVE);
    var e := if Supplements(all, weak) then Top(q, ByExpansion, Of(Supplemental, all - d - m), EXPANSION_RESERVE) else {};
    Reserves(d, m, e)
  }

  ghost function Admitted(q: Query, all: set<Retrieved>, weak: bool): set<Retrieved> {
    var r := ReservesOf(q, all, weak).All();
    r + Top(q, ByMain, all - r, if |r| <= CANDIDATE_LIMIT then CANDIDATE_LIMIT - |r| else 0)
  }

  lemma ReservesFit(q: Query, all: set<Retrieved>, weak: bool)
    ensures var r := ReservesOf(q, all, weak);
      && r.All() <= all
      && |r.All()| <= DEFINITION_RESERVE + MEANINGFUL_RESERVE + EXPANSION_RESERVE
  {
    var r := ReservesOf(q, all, weak);
    SubsetSize(r.definitions, all);
    assert |r.definitions + r.meaningful| <= |r.definitions| + |r.meaningful|;
    assert |r.All()| <= |r.definitions + r.meaningful| + |r.expansion|;
  }

  /** The pool is as large as the cap and the candidates allow. */
  lemma PoolIsFull(q: Query, all: set<Retrieved>, weak: bool)
    ensures var pool := Admitted(q, all, weak);
      pool <= all && |pool| == if |all| <= CANDIDATE_LIMIT then |all| else CANDIDATE_LIMIT
  {
    ReservesFit(q, all, weak);
    var r := ReservesOf(q, all, weak).All();
    hide ReservesOf, Reserves.All, Leq;
    FilledUp(q, all, r);
  }

  lemma FilledUp(q: Query, all: set<Retrieved>, r: set<Retrieved>)
    requires r <= all && |r| <= CANDIDATE_LIMIT
    ensures var pool := r + Top(q, ByMain, all - r, CANDIDATE_LIMIT - |r|);
      pool <= all && |pool| == if |all| <= CANDIDATE_LIMIT then |all| else CANDIDATE_LIMIT
  {
    var t := Top(q, ByMain, all - r, CANDIDATE_LIMIT - |r|);
    hide Leq;
    DisjointSize(r, all - r);
    assert r + (all - r) == all;
    DisjointSize(r, t);
  }

  /** The best of each reserved class are in the pool, also those that an earlier reservation took. */
  lemma BestOfClassAreAdmitted(q: Query, all: set<Retrieved>, weak: bool, c: Retrieved)
    requires DistinctIds(all)
    requires
      || c in Top(q, ByDefinition, Of(Declaring, all), DEFINITION_RESERVE)
      || c in Top(q, ByMeaningful, Of(Telling, all), MEANINGFUL_RESERVE)
      || (Supplements(all, weak) && c in Top(q, ByExpansion, Of(Supplemental, all), EXPANSION_RESERVE))
    ensures c in ReservesOf(q, all, weak).All() && c in Admitted(q, all, weak)
  {
    var d := Top(q, ByDefinition, Of(Declaring, all), DEFINITION_RESERVE);
    var m := Top(q, ByMeaningful, Of(Telling, all - d), MEANINGFUL_RESERVE);
    hide Leq, IsTop, Supplements;
    if c in d {
    } else if c in Top(q, ByMeaningful, Of(Telling, all), MEANINGFUL_RESERVE) {
      InTop(q, ByMeaningful, Of(Telling, all), MEANINGFUL_RESERVE, c);
      TopOfFewer(q, ByMeaningful, Of(Telling, all), MEANINGFUL_RESERVE, Of(Telling, all - d), MEANINGFUL_RESERVE, c);
    } else if c !in m {
      InTop(q, ByExpansion, Of(Supplemental, all), EXPANSION_RESERVE, c);
      TopOfFewer(q, ByExpansion, Of(Supplemental, all), EXPANSION_RESERVE, Of(Supplemental, all - d - m), EXPANSION_RESERVE, c);
    }
  }

  lemma InTop(q: Query, o: Order, all: set<Retrieved>, n: nat, c: Retrieved)
    requires c in Top(q, o, all, n)
    ensures c in all
  {}

  const UNRESERVED := CANDIDATE_LIMIT - DEFINITION_RESERVE - MEANINGFUL_RESERVE - EXPANSION_RESERVE

  /** Reservations cannot crowd out the candidates that lead the general order. */
  lemma LeadersAreAdmitted(q: Query, all: set<Retrieved>, weak: bool, c: Retrieved)
    requires DistinctIds(all) && c in Top(q, ByMain, all, UNRESERVED)
    ensures c in Admitted(q, all, weak)
  {
    ReservesFit(q, all, weak);
    var r := ReservesOf(q, all, weak).All();
    hide ReservesOf, Reserves.All, Leq;
    InTop(q, ByMain, all, UNRESERVED, c);
    if c !in r {
      TopOfFewer(q, ByMain, all, UNRESERVED, all - r, CANDIDATE_LIMIT - |r|, c);
    }
  }

  /** The unreserved places go to the best of the rest. */
  lemma RestAreBest(q: Query, all: set<Retrieved>, weak: bool, a: Retrieved, b: Retrieved)
    requires a in Admitted(q, all, weak) - ReservesOf(q, all, weak).All() && b in all - Admitted(q, all, weak)
    ensures Leq(q, ByMain, a, b)
  {
    hide ReservesOf, Leq, Reserves.All;
  }

  // ---------------------------------------------------------------- by the scores themselves

  /** For a query that spells out a path, whether this is one it could mean. */
  predicate Spelled(q: Query, c: Retrieved) {
    q.pathClass && q.exact(c.path)
  }

  /** Neither is ahead by being a spelled path or by having been found by words. */
  predicate SameStanding(q: Query, a: Retrieved, b: Retrieved) {
    Spelled(q, a) == Spelled(q, b) && a.bm25.Some? == b.bm25.Some?
  }

  /** Spelled paths come first, then what was found by words; then the score decides, the greater
      first, and for equal scores the identifier, the lexicographically lesser first. */
  ghost predicate ComesFirst(q: Query, a: Retrieved, b: Retrieved) {
    && (Spelled(q, b) ==> Spelled(q, a))
    && (Spelled(q, a) == Spelled(q, b) && b.bm25.Some? ==> a.bm25.Some?)
    && (SameStanding(q, a, b) && a.bm25.Some? ==> b.bm25.value <= a.bm25.value)
    && (SameStanding(q, a, b) && a.bm25 == b.bm25 ==> IdLeq(a.id, b.id))
  }

  /** The pool of `Candidates.Finish`: in this order, and nothing left out comes before an unreserved
      member. In particular no candidate that is left out has a greater score than an unreserved
      member of its standing. */
  lemma PoolIsByScore(q: Query, all: set<Retrieved>, weak: bool, pool: seq<Retrieved>)
    requires SortedBy(q, ByMain, pool) && Elems(pool) == Admitted(q, all, weak)
    ensures forall i, j :: 0 <= i < j < |pool| ==> ComesFirst(q, pool[i], pool[j])
    ensures forall a, b :: a in pool && a !in ReservesOf(q, all, weak).All() && b in all && b !in pool ==> ComesFirst(q, a, b)
  {
    hide Admitted, ReservesOf, Reserves.All, Leq, ComesFirst;
    forall i, j | 0 <= i < j < |pool| ensures ComesFirst(q, pool[i], pool[j]) {
      MainIsByScore(q, pool[i], pool[j]);
    }
    forall a, b | a in pool && a !in ReservesOf(q, all, weak).All() && b in all && b !in pool ensures ComesFirst(q, a, b) {
      assert a in Elems(pool) && b !in Elems(pool);
      RestAreBest(q, all, weak, a, b);
      MainIsByScore(q, a, b);
    }
  }

  lemma MainIsByScore(q: Query, a: Retrieved, b: Retrieved)
    requires Leq(q, ByMain, a, b)
    ensures ComesFirst(q, a, b)
  {
    hide IdLeq;
  }

  /** Each reserve takes as many of its class as there are, up to its size, and what it leaves does
      not score more, by the measure of its kind, than anything it takes: definitions by the score by
      words, meaningful hits by theirs, and what was found by neither by the score of expansion among
      equally spelled paths. */
  lemma ReservesAreByScore(q: Query, all: set<Retrieved>, weak: bool, a: Retrieved, b: Retrieved)
    ensures var r := ReservesOf(q, all, weak);
      var declaring := set c | c in all && c.evidence.definition;
      var telling := set c | c in all - r.definitions && c.evidence.meaningful.Some?;
      var other := set c | c in all - r.definitions - r.meaningful && c.bm25.None?;
      var supplements := weak && exists c :: c in all && c.evidence.expansion.Some?;
      && |r.definitions| == Min(DEFINITION_RESERVE, |declaring|) && r.definitions <= declaring
      && |r.meaningful| == Min(MEANINGFUL_RESERVE, |telling|) && r.meaningful <= telling
      && |r.expansion| == (if supplements then Min(EXPANSION_RESERVE, |other|) else 0) && r.expansion <= other
      && (a in r.definitions && b in declaring - r.definitions ==> OrZero(b.bm25) <= OrZero(a.bm25))
      && (a in r.meaningful && b in telling - r.meaningful ==> OrZero(b.evidence.meaningful) <= OrZero(a.evidence.meaningful))
      && (a in r.expansion && b in other - r.expansion ==>
            && (q.exact(b.path) ==> q.exact(a.path))
            && (q.exact(a.path) == q.exact(b.path) ==> OrZero(b.evidence.expansion) <= OrZero(a.evidence.expansion)))
  {
    var r := ReservesOf(q, all, weak);
    TopIsByScore(q, ByDefinition, Of(Declaring, all), DEFINITION_RESERVE, a, b);
    TopIsByScore(q, ByMeaningful, Of(Telling, all - r.definitions), MEANINGFUL_RESERVE, a, b);
    TopIsByScore(q, ByExpansion, Of(Supplemental, all - r.definitions - r.meaningful), EXPANSION_RESERVE, a, b);
    assert Of(Declaring, all) == set c | c in all && c.evidence.definition;
    assert Of(Telling, all - r.definitions) == set c | c in all - r.definitions && c.evidence.meaningful.Some?;
    assert Of(Supplemental, all - r.definitions - r.meaningful) == set c | c in all - r.definitions - r.meaningful && c.bm25.None?;
    hide Of, IsTop, Leq;
  }

  lemma TopIsByScore(q: Query, o: Order, all: set<Retrieved>, n: nat, a: Retrieved, b: Retrieved)
    requires !o.ByMain?
    ensures var top := Top(q, o, all, n);
      && top <= all && |top| == Min(n, |all|)
      && (a in top && b in all - top ==>
            match o
            case ByDefinition => OrZero(b.bm25) <= OrZero(a.bm25)
            case ByMeaningful => OrZero(b.evidence.meaningful) <= OrZero(a.evidence.meaningful)
            case ByExpansion =>
              && (q.exact(b.path) ==> q.exact(a.path))
              && (q.exact(a.path) == q.exact(b.path) ==> OrZero(b.evidence.expansion) <= OrZero(a.evidence.expansion))
            case ByMain => true)
  {
    hide IdLeq;
  }

  // ---------------------------------------------------------------- in place

  ghost predicate SortedBy(q: Query, o: Order, s: seq<Retrieved>) {
    forall i, j :: 0 <= i < j < |s| ==> Leq(q, o, s[i], s[j])
  }

  method Sort(q: Query, o: Order, s: seq<Retrieved>) returns (r: seq<Retrieved>)
    ensures SortedBy(q, o, r) && multiset(r) == multiset(s)
  {
    var leq := (a: Retrieved, b: Retrieved) => Leq(q, o, a, b);
    assert IsOrder(leq) by {
      forall a, b, c ensures (leq(a, b) || leq(b, a)) && (leq(a, b) && leq(b, c) ==> leq(a, c)) {
        LeqIsOrder(q, o, a, b, c);
      }
    }
    r := Collections.Sort(leq, s);
    assert SortedBy(q, o, r) by {
      forall i, j | 0 <= i < j < |r| ensures Leq(q, o, r[i], r[j]) {
        assert leq(r[i], r[j]);
      }
    }
  }

  /** Takes the best of a class out of what remains. */
  method Reserve(q: Query, o: Order, class': Class, remaining: seq<Retrieved>, limit: nat)
    returns (selected: seq<Retrieved>, rest: seq<Retrieved>)
    requires NoRepeats(remaining) && DistinctIds(Elems(remaining))
    ensures NoRepeats(selected + rest) && Elems(selected) == Top(q, o, Of(class', Elems(remaining)), limit)
    ensures Elems(rest) == Elems(remaining) - Elems(selected)
  {
    var eligible;
    eligible, rest := Partition(class', remaining);
    var sorted := Sort(q, o, eligible);
    var n := if limit <= |sorted| then limit else |sorted|;
    EligibleAre(class', eligible, rest, remaining);
    selected := sorted[..n];
    assert sorted == selected + sorted[n..];
    hide *;
    Reserving(remaining, eligible, rest, selected, sorted[n..]);
    FirstAreTop(q, o, selected, sorted[n..], limit);
    rest := rest + sorted[n..];
  }

  lemma EligibleAre(class': Class, eligible: seq<Retrieved>, rest: seq<Retrieved>, remaining: seq<Retrieved>)
    requires multiset(eligible + rest) == multiset(remaining)
    requires (forall c :: c in eligible ==> In(class', c)) && (forall c :: c in rest ==> !In(class', c))
    ensures Elems(eligible) == Of(class', Elems(remaining))
  {
    SameElems(eligible + rest, remaining);
    assert Elems(eligible + rest) == Elems(eligible) + Elems(rest);
  }

  /** Nothing is lost or repeated when the class is cut out, sorted, and its surplus put back. */
  lemma Reserving(remaining: seq<Retrieved>, eligible: seq<Retrieved>, rest: seq<Retrieved>, a: seq<Retrieved>, b: seq<Retrieved>)
    requires NoRepeats(remaining) && multiset(eligible + rest) == multiset(remaining) && multiset(a + b) == multiset(eligible)
    ensures NoRepeats(a + b) && NoRepeats(a + (rest + b))
    ensures Elems(a + b) == Elems(eligible) && Elems(rest + b) == Elems(remaining) - Elems(a)
    ensures Elems(a + b) <= Elems(remaining)
  {
    hide NoRepeats, Elems;
    SameElems(eligible + rest, remaining);
    SameElems(a + b, eligible);
    DistinctParts(eligible, rest);
    DistinctParts(a, b);
    DistinctParts(rest, b);
    DistinctParts(a, rest + b);
  }

  method Partition(class': Class, remaining: seq<Retrieved>) returns (eligible: seq<Retrieved>, rest: seq<Retrieved>)
    ensures multiset(eligible + rest) == multiset(remaining)
    ensures forall c :: c in eligible ==> In(class', c)
    ensures forall c :: c in rest ==> !In(class', c)
  {
    eligible, rest := [], [];
    for i := 0 to |remaining|
      invariant multiset(eligible) + multiset(rest) == multiset(remaining[..i])
      invariant forall c :: c in eligible ==> In(class', c)
      invariant forall c :: c in rest ==> !In(class', c)
    {
      assert remaining[..i + 1] == remaining[..i] + [remaining[i]];
      if In(class', remaining[i]) {
        eligible := eligible + [remaining[i]];
      } else {
        rest := rest + [remaining[i]];
      }
    }
    assert remaining[..|remaining|] == remaining;
  }

  lemma SortedCut(q: Query, o: Order, a: seq<Retrieved>, b: seq<Retrieved>, x: Retrieved, y: Retrieved)
    requires SortedBy(q, o, a + b) && x in Elems(a) && y in Elems(b)
    ensures Leq(q, o, x, y)
  {
    hide Leq;
    var i :| 0 <= i < |a| && a[i] == x;
    var j :| 0 <= j < |b| && b[j] == y;
    assert (a + b)[i] == x && (a + b)[|a| + j] == y;
  }

  lemma FirstAreTop(q: Query, o: Order, a: seq<Retrieved>, b: seq<Retrieved>, limit: nat)
    requires NoRepeats(a + b) && DistinctIds(Elems(a + b)) && SortedBy(q, o, a + b)
    requires |a| == if limit <= |a + b| then limit else |a + b|
    ensures Elems(a) == Top(q, o, Elems(a + b), limit)
  {
    DistinctParts(a, b);
    DistinctSize(a + b);
    DistinctSize(a);
    hide Leq, NoRepeats, Elems, SortedBy;
    forall x, y | x in Elems(a) && y in Elems(a + b) - Elems(a)
      ensures Leq(q, o, x, y)
    {
      SortedCut(q, o, a, b, x, y);
    }
    TopIsUnique(q, o, Elems(a + b), limit, Elems(a), Top(q, o, Elems(a + b), limit));
  }

  /** The merged candidates of one query. */
  class Candidates {
    const filter: Filter
    var candidates: map<string, Retrieved>
    ghost var log: seq<Delivery>

    ghost predicate Valid()
      reads this
    {
      candidates == Recorded(log) && forall d :: d in log ==> InScope(filter, d.hit)
    }

    constructor (filter: Filter)
      ensures Valid() && this.filter == filter && log == []
    {
      this.filter, candidates, log := filter, map[], [];
    }

    /** A hit outside the query's scope is refused. */
    method Record(lane: Lane, hit: Hit) returns (ok: bool)
      requires Valid()
      modifies this
      ensures Valid() && ok == InScope(filter, hit) && log == if ok then old(log) + [Delivery(lane, hit)] else old(log)
    {
      hide InScope;
      if !InScope(filter, hit) {
        return false;
      }
      assert (log + [Delivery(lane, hit)])[..|log|] == log;
      var c := if hit.id in candidates then candidates[hit.id] else Retrieved(hit.id, hit.path, None, NO_EVIDENCE);
      candidates := candidates[hit.id := WithEvidence(c, lane, hit.score)];
      log := log + [Delivery(lane, hit)];
      ok := true;
    }

    /** The pool, best first. Whatever lane delivered it, it is in the query's scope. */
    method Finish(q: Query, weak: bool) returns (pool: seq<Retrieved>)
      requires Valid()
      ensures forall c :: c in pool ==> exists d :: d in log && d.hit.id == c.id && InScope(filter, d.hit)
      ensures SortedBy(q, ByMain, pool) && NoRepeats(pool)
      ensures Elems(pool) == Admitted(q, Recorded(log).Values, weak)
    {
      RecordedSums(log);
      assert DistinctIds(candidates.Values);
      hide Recorded, Sums, InScope;
      var remaining := Listed(candidates);
      pool := Choose(q, weak, remaining);
      PoolIsFull(q, candidates.Values, weak);
      assert Elems(pool) <= candidates.Values;
      hide Admitted, SortedBy, NoRepeats, DistinctIds;
      forall c | c in pool ensures exists d :: d in log && d.hit.id == c.id && InScope(filter, d.hit) {
        assert c in Elems(pool) && c in candidates.Values;
        var id :| id in candidates && candidates[id] == c;
        var d :| d in log && d.hit.id == id;
        assert InScope(filter, d.hit);
      }
    }
  }

  /** The map's values; the order they come in will not matter. */
  method Listed(candidates: map<string, Retrieved>) returns (all: seq<Retrieved>)
    requires forall id :: id in candidates ==> candidates[id].id == id
    ensures NoRepeats(all) && Elems(all) == candidates.Values
  {
    all := [];
    var todo := candidates.Keys;
    while todo != {}
      invariant todo <= candidates.Keys
      invariant NoRepeats(all)
      invariant forall c :: c in all <==> c.id in candidates.Keys - todo && candidates[c.id] == c
    {
      var id :| id in todo;
      DistinctParts(all, [candidates[id]]);
      assert NoRepeats([candidates[id]]);
      all := all + [candidates[id]];
      todo := todo - {id};
    }
    assert forall c :: c in candidates.Values <==> c.id in candidates && candidates[c.id] == c;
  }

  method Choose(q: Query, weak: bool, all: seq<Retrieved>) returns (pool: seq<Retrieved>)
    requires NoRepeats(all) && DistinctIds(Elems(all))
    ensures SortedBy(q, ByMain, pool) && NoRepeats(pool)
    ensures Elems(pool) == Admitted(q, Elems(all), weak)
  {
    var hasExpansion := HasExpansion(all);
    var selected, remaining := Reservations(q, weak, hasExpansion, all);
    ReservesFit(q, Elems(all), weak);
    hide ReservesOf, Reserves.All;
    pool := Fill(q, selected, remaining);
  }

  method HasExpansion(all: seq<Retrieved>) returns (any: bool)
    ensures any <==> exists c :: c in Elems(all) && c.evidence.expansion.Some?
  {
    any := false;
    for i := 0 to |all|
      invariant any <==> exists k :: 0 <= k < i && all[k].evidence.expansion.Some?
    {
      any := any || all[i].evidence.expansion.Some?;
    }
  }

  /** `selected` has been taken out of `all`, `remaining` is left. */
  ghost predicate Taken(all: set<Retrieved>, taken: set<Retrieved>, selected: seq<Retrieved>, remaining: seq<Retrieved>) {
    && NoRepeats(selected) && NoRepeats(remaining)
    && Elems(selected) == taken <= all && Elems(remaining) == all - taken
  }

  lemma TakenMore(all: set<Retrieved>, taken: set<Retrieved>, selected: seq<Retrieved>, remaining: seq<Retrieved>,
                  more: seq<Retrieved>, rest: seq<Retrieved>)
    requires Taken(all, taken, selected, remaining) && NoRepeats(more + rest)
    requires Elems(more) <= Elems(remaining) && Elems(rest) == Elems(remaining) - Elems(more)
    ensures Taken(all, taken + Elems(more), selected + more, rest)
  {
    hide NoRepeats, Elems;
    DistinctParts(more, rest);
    DistinctParts(selected, more);
  }

  lemma TakenReordered(all: set<Retrieved>, taken: set<Retrieved>, selected: seq<Retrieved>, selected': seq<Retrieved>, remaining: seq<Retrieved>)
    requires Taken(all, taken, selected, remaining) && multiset(selected) == multiset(selected')
    ensures Taken(all, taken, selected', remaining)
  {
    SameElems(selected, selected');
  }

  lemma SubsetDistinctIds(all: set<Retrieved>, some: set<Retrieved>)
    requires DistinctIds(all) && some <= all
    ensures DistinctIds(some)
  {}

  method TakeReserve(q: Query, o: Order, class': Class, ghost all: set<Retrieved>, ghost taken: set<Retrieved>,
                     selected: seq<Retrieved>, remaining: seq<Retrieved>, limit: nat)
    returns (more: seq<Retrieved>, rest: seq<Retrieved>)
    requires DistinctIds(all) && Taken(all, taken, selected, remaining)
    ensures Elems(more) == Top(q, o, Of(class', all - taken), limit)
    ensures Taken(all, taken + Elems(more), selected + more, rest)
  {
    SubsetDistinctIds(all, all - taken);
    more, rest := Reserve(q, o, class', remaining, limit);
    assert Elems(more) <= Elems(remaining);
    hide Leq, NoRepeats, Elems, DistinctIds;
    TakenMore(all, taken, selected, remaining, more, rest);
  }

  method FirstReservations(q: Query, all: seq<Retrieved>)
    returns (definitions: seq<Retrieved>, meaningful: seq<Retrieved>, rest: seq<Retrieved>)
    requires NoRepeats(all) && DistinctIds(Elems(all))
    ensures Elems(definitions) == Top(q, ByDefinition, Of(Declaring, Elems(all)), DEFINITION_RESERVE)
    ensures Elems(meaningful) == Top(q, ByMeaningful, Of(Telling, Elems(all) - Elems(definitions)), MEANINGFUL_RESERVE)
    ensures Taken(Elems(all), Elems(definitions) + Elems(meaningful), definitions + meaningful, rest)
  {
    assert Taken(Elems(all), {}, [], all);
    hide *;
    definitions, rest := TakeReserve(q, ByDefinition, Declaring, Elems(all), {}, [], all, DEFINITION_RESERVE);
    assert {} + Elems(definitions) == Elems(definitions) && [] + definitions == definitions && Elems(all) - {} == Elems(all);
    meaningful, rest := TakeReserve(q, ByMeaningful, Telling, Elems(all), Elems(definitions), definitions, rest, MEANINGFUL_RESERVE);
  }

  method Reservations(q: Query, weak: bool, hasExpansion: bool, all: seq<Retrieved>)
    returns (selected: seq<Retrieved>, rest: seq<Retrieved>)
    requires NoRepeats(all) && DistinctIds(Elems(all))
    requires hasExpansion <==> exists c :: c in Elems(all) && c.evidence.expansion.Some?
    ensures Taken(Elems(all), ReservesOf(q, Elems(all), weak).All(), selected, rest)
  {
    assert weak && hasExpansion <==> Supplements(Elems(all), weak);
    hide *;
    var definitions, meaningful;
    definitions, meaningful, rest := FirstReservations(q, all);
    ghost var taken := Elems(definitions) + Elems(meaningful);
    if weak && hasExpansion {
      var expansion;
      expansion, rest := TakeReserve(q, ByExpansion, Supplemental, Elems(all), taken, definitions + meaningful, rest, EXPANSION_RESERVE);
      ReservesAre(q, Elems(all), weak, Elems(definitions), Elems(meaningful), Elems(expansion));
      selected := definitions + expansion + meaningful;
      SameSwapped(definitions, meaningful, expansion);
      TakenReordered(Elems(all), taken + Elems(expansion), definitions + meaningful + expansion, selected, rest);
    } else {
      ReservesAre(q, Elems(all), weak, Elems(definitions), Elems(meaningful), {});
      assert taken + {} == taken;
      selected := definitions + meaningful;
    }
  }

  lemma ReservesAre(q: Query, all: set<Retrieved>, weak: bool, d: set<Retrieved>, m: set<Retrieved>, e: set<Retrieved>)
    requires d == Top(q, ByDefinition, Of(Declaring, all), DEFINITION_RESERVE)
    requires m == Top(q, ByMeaningful, Of(Telling, all - d), MEANINGFUL_RESERVE)
    requires e == if Supplements(all, weak) then Top(q, ByExpansion, Of(Supplemental, all - (d + m)), EXPANSION_RESERVE) else {}
    ensures d + m + e == ReservesOf(q, all, weak).All()
  {
    hide IsTop, Of, Supplements;
    assert all - (d + m) == all - d - m;
  }

  /** The rest of the pool, and its order. The last cut never takes anything away. */
  method Fill(q: Query, reserved: seq<Retrieved>, rest: seq<Retrieved>) returns (pool: seq<Retrieved>)
    requires NoRepeats(reserved) && NoRepeats(rest) && Elems(reserved) !! Elems(rest) && DistinctIds(Elems(rest))
    requires |Elems(reserved)| <= CANDIDATE_LIMIT
    ensures SortedBy(q, ByMain, pool) && NoRepeats(pool)
    ensures Elems(pool) == Elems(reserved) + Top(q, ByMain, Elems(rest), CANDIDATE_LIMIT - |Elems(reserved)|)
  {
    DistinctSize(reserved);
    hide NoRepeats, Elems, SortedBy, DistinctIds, Leq, Top, IsTop;
    assert |reserved| == |Elems(reserved)|;
    var room := CANDIDATE_LIMIT - Min(|reserved|, CANDIDATE_LIMIT);
    var more := Leading(q, rest, room);
    DistinctParts(reserved, more);
    ghost var expected := Elems(reserved) + Top(q, ByMain, Elems(rest), CANDIDATE_LIMIT - |Elems(reserved)|);
    assert Elems(reserved + more) == expected;
    var all := InOrder(q, reserved + more);
    var n := Min(|all|, CANDIDATE_LIMIT);
    assert all[..n] == all;
    pool := all[..n];
  }

  method InOrder(q: Query, s: seq<Retrieved>) returns (r: seq<Retrieved>)
    requires NoRepeats(s)
    ensures SortedBy(q, ByMain, r) && NoRepeats(r) && Elems(r) == Elems(s) && |r| == |s|
  {
    r := Sort(q, ByMain, s);
    SameElems(r, s);
    SameLength(r, s);
  }

  lemma SameLength(a: seq<Retrieved>, b: seq<Retrieved>)
    requires multiset(a) == multiset(b)
    ensures |a| == |b|
  {
    assert |multiset(a)| == |a| && |multiset(b)| == |b|;
  }

  lemma SameSwapped(a: seq<Retrieved>, b: seq<Retrieved>, c: seq<Retrieved>)
    ensures multiset(a + b + c) == multiset(a + c + b)
  {}

  method Leading(q: Query, rest: seq<Retrieved>, room: nat) returns (more: seq<Retrieved>)
    requires NoRepeats(rest) && DistinctIds(Elems(rest))
    ensures NoRepeats(more) && |more| <= room && Elems(more) <= Elems(rest)
    ensures Elems(more) == Top(q, ByMain, Elems(rest), room)
  {
    hide *;
    var sorted := Sort(q, ByMain, rest);
    SameElems(sorted, rest);
    var n := if room <= |sorted| then room else |sorted|;
    more := sorted[..n];
    ghost var surplus := sorted[n..];
    assert sorted == more + surplus;
    FirstAreTop(q, ByMain, more, surplus, room);
    DistinctParts(more, surplus);
  }

  /** The pool does not depend on the order in which the lanes delivered. */
  lemma PoolIgnoresDeliveryOrder(q: Query, a: seq<Delivery>, b: seq<Delivery>, weak: bool, p: seq<Retrieved>, r: seq<Retrieved>)
    requires Consistent(a) && forall d :: d in a <==> d in b
    requires SortedBy(q, ByMain, p) && NoRepeats(p) && Elems(p) == Admitted(q, Recorded(a).Values, weak)
    requires SortedBy(q, ByMain, r) && NoRepeats(r) && Elems(r) == Admitted(q, Recorded(b).Values, weak)
    ensures p == r
  {
    DeliveryOrderIsIrrelevant(a, b);
    RecordedSums(a);
    PoolIsFull(q, Recorded(a).Values, weak);
    assert DistinctIds(Elems(p));
    hide Recorded, Admitted;
    SortedOnce(q, p, r);
  }

  /** There is one way to list a set in order. */
  lemma {:induction false} SortedOnce(q: Query, p: seq<Retrieved>, r: seq<Retrieved>)
    requires SortedBy(q, ByMain, p) && NoRepeats(p) && SortedBy(q, ByMain, r) && NoRepeats(r)
    requires Elems(p) == Elems(r) && DistinctIds(Elems(p))
    ensures p == r
    decreases |p|
  {
    hide Leq;
    DistinctSize(p);
    DistinctSize(r);
    if p != [] {
      SameFirst(q, p, r);
      var a, b := p[1..], r[1..];
      assert p == [p[0]] + a && r == [p[0]] + b;
      DistinctParts([p[0]], a);
      DistinctParts([p[0]], b);
      hide NoRepeats, Elems, Leq;
      assert Elems(a) == Elems(p) - Elems([p[0]]) == Elems(b);
      SortedOnce(q, a, b);
    }
  }

  lemma SameFirst(q: Query, p: seq<Retrieved>, r: seq<Retrieved>)
    requires SortedBy(q, ByMain, p) && SortedBy(q, ByMain, r) && p != [] && r != []
    requires Elems(p) == Elems(r) && DistinctIds(Elems(p))
    ensures p[0] == r[0]
  {
    hide Leq;
    var c, e := p[0], r[0];
    assert c in Elems(r) && e in Elems(p);
    var i :| 0 <= i < |r| && r[i] == c;
    var k :| 0 <= k < |p| && p[k] == e;
    LeqIsOrder(q, ByMain, c, e, c);
    LeqIsOrder(q, ByMain, c, c, c);
  }
}
