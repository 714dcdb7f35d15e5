/** Structural de-duplication and maximal-marginal-relevance selection of scored candidates.
    Scores are real numbers; rounding is not modelled. */
module Ranking {
  import opened Collections
  import opened Identifiers
  import opened Similarity

  datatype Options = Options(dedupe: bool, mmr: bool)

  const CANDIDATE_LIMIT := 200
  const MMR_LAMBDA := 0.85
  /** The distance from one to the next larger double. */
  const EPSILON := 1.0 / 4503599627370496.0

  // ---------------------------------------------------------------- the order of candidates

  /** Exact tiers first, then relevance, then the identifier. */
  predicate Before(a: Candidate, b: Candidate) {
    || a.tier > b.tier
    || (a.tier == b.tier && (a.relevance > b.relevance || (a.relevance == b.relevance && IdLeq(a.id, b.id))))
  }

  ghost predicate Sorted(s: seq<Candidate>) {
    forall i, j :: 0 <= i < j < |s| ==> Before(s[i], s[j])
  }

  lemma BeforeTransitive(a: Candidate, b: Candidate, c: Candidate)
    requires Before(a, b) && Before(b, c)
    ensures Before(a, c)
  {
    if a.tier == b.tier == c.tier && a.relevance == b.relevance == c.relevance { IdTransitive(a.id, b.id, c.id); }
  }

  lemma BeforeIsOrder()
    ensures IsOrder(Before)
  {
    forall a, b ensures Before(a, b) || Before(b, a) {
      IdTotal(a.id, b.id);
    }
    forall a, b, c | Before(a, b) && Before(b, c) ensures Before(a, c) {
      BeforeTransitive(a, b, c);
    }
  }

  method Sort(candidates: seq<Candidate>) returns (r: seq<Candidate>)
    ensures Sorted(r) && multiset(r) == multiset(candidates)
  {
    BeforeIsOrder();
    r := Collections.Sort(Before, candidates);
  }

  // ---------------------------------------------------------------- collapsing replicas

  /** A representative with the identifiers it stands for. */
  datatype Entry = Entry(candidate: Candidate, collapsed: seq<string>)

  function Ids(entries: seq<Entry>): multiset<string> {
    if entries == [] then multiset{}
    else
      Ids(entries[..|entries| - 1]) + IdsIn(entries[|entries| - 1])
  }

  function IdsIn(e: Entry): multiset<string> {
    multiset{e.candidate.id} + multiset(e.collapsed)
  }

  function Joining(e: Entry, id: string): Entry {
    Entry(e.candidate, e.collapsed + [id])
  }

  function IdsOf(candidates: seq<Candidate>): multiset<string> {
    if candidates == [] then multiset{} else IdsOf(candidates[..|candidates| - 1]) + multiset{candidates[|candidates| - 1].id}
  }

  lemma {:induction false} IdsAppend(a: seq<Entry>, b: seq<Entry>)
    ensures Ids(a + b) == Ids(a) + Ids(b)
  {
    IdsOfNone();
    hide Ids, IdsIn;
    if b == [] {
      assert a + b == a;
    } else {
      var front, last := b[..|b| - 1], b[|b| - 1];
      assert b == front + [last] && a + b == (a + front) + [last];
      IdsAppend(a, front);
      IdsPush(a + front, last);
      IdsPush(front, last);
      BagAssociates(Ids(a), Ids(front), IdsIn(last));
    }
  }

  lemma IdsOfNone()
    ensures Ids([]) == multiset{}
  {}

  lemma IdsPush(entries: seq<Entry>, e: Entry)
    ensures Ids(entries + [e]) == Ids(entries) + IdsIn(e)
  {
    assert (entries + [e])[..|entries|] == entries;
  }

  lemma IdsOfUpdate(entries: seq<Entry>, i: nat, id: string)
    requires i < |entries|
    ensures Ids(entries[i := Joining(entries[i], id)]) == Ids(entries) + multiset{id}
  {
    var e, joined := entries[i], Joining(entries[i], id);
    var a, b := entries[..i], entries[i + 1..];
    assert IdsIn(joined) == IdsIn(e) + multiset{id};
    assert Ids([e]) == IdsIn(e) && Ids([joined]) == IdsIn(joined);
    assert entries == a + [e] + b && entries[i := joined] == a + [joined] + b;
    hide *;
    IdsAppend(a, [e]);
    IdsAppend(a + [e], b);
    IdsAppend(a, [joined]);
    IdsAppend(a + [joined], b);
  }

  /** The first representative that a candidate duplicates. */
  ghost predicate Represents(entries: seq<Entry>, i: nat, c: Candidate) {
    i < |entries| && Duplicate(entries[i].candidate, c) && forall k :: 0 <= k < i ==> !Duplicate(entries[k].candidate, c)
  }

  ghost predicate Stands(entries: seq<Entry>, i: nat, candidates: seq<Candidate>, id: string) {
    exists k :: 0 <= k < |candidates| && candidates[k].id == id && Represents(entries, i, candidates[k])
                && Before(entries[i].candidate, candidates[k])
  }

  /** What collapsing promises: representatives are candidates, in order, of which none duplicates
      an earlier one; every collapsed identifier stands with the first representative that its
      candidate duplicates, which comes before it; and every identifier is kept exactly once. */
  ghost predicate Deduped(candidates: seq<Candidate>, entries: seq<Entry>) {
    && (forall i :: 0 <= i < |entries| ==> entries[i].candidate in candidates)
    && Distinct(entries)
    && AllStand(candidates, entries)
    && Ids(entries) == IdsOf(candidates)
  }

  ghost predicate Distinct(entries: seq<Entry>) {
    forall i, j :: 0 <= i < j < |entries| ==>
      Before(entries[i].candidate, entries[j].candidate) && !Duplicate(entries[i].candidate, entries[j].candidate)
  }

  ghost predicate AllStand(candidates: seq<Candidate>, entries: seq<Entry>) {
    forall i, id :: 0 <= i < |entries| && id in entries[i].collapsed ==> Stands(entries, i, candidates, id)
  }

  /** The same representatives, of which the one at `i` now stands for one more identifier. */
  ghost predicate JoinedAt(entries: seq<Entry>, entries': seq<Entry>, i: nat, id: string) {
    && i < |entries| == |entries'|
    && (forall k :: 0 <= k < |entries| ==> entries'[k].candidate == entries[k].candidate)
    && (forall k :: 0 <= k < |entries| && k != i ==> entries'[k].collapsed == entries[k].collapsed)
    && entries'[i].collapsed == entries[i].collapsed + [id]
  }

  method FindDuplicate(entries: seq<Entry>, c: Candidate) returns (i: nat)
    ensures i <= |entries| && (i < |entries| ==> Represents(entries, i, c))
    ensures i == |entries| ==> forall k :: 0 <= k < |entries| ==> !Duplicate(entries[k].candidate, c)
  {
    i := 0;
    while i < |entries| && !Duplicate(entries[i].candidate, c)
      invariant i <= |entries| && forall k :: 0 <= k < i ==> !Duplicate(entries[k].candidate, c)
    {
      i := i + 1;
    }
  }

  lemma StandsStill(entries: seq<Entry>, entries': seq<Entry>, i: nat, candidates: seq<Candidate>, c: Candidate, id: string)
    requires i < |entries| <= |entries'| && Stands(entries, i, candidates, id)
    requires forall k :: 0 <= k <= i ==> entries'[k].candidate == entries[k].candidate
    ensures Stands(entries', i, candidates + [c], id)
  {
    var k :| 0 <= k < |candidates| && candidates[k].id == id && Represents(entries, i, candidates[k]) && Before(entries[i].candidate, candidates[k]);
    assert (candidates + [c])[k] == candidates[k] && Represents(entries', i, candidates[k]);
  }

  lemma JoinedStands(candidates: seq<Candidate>, entries: seq<Entry>, entries': seq<Entry>, c: Candidate, i: nat)
    requires AllStand(candidates, entries) && JoinedAt(entries, entries', i, c.id)
    requires Stands(entries', i, candidates + [c], c.id)
    ensures AllStand(candidates + [c], entries')
  {
    forall j, id | 0 <= j < |entries'| && id in entries'[j].collapsed
      ensures Stands(entries', j, candidates + [c], id)
    {
      if id in entries[j].collapsed {
        StandsStill(entries, entries', j, candidates, c, id);
      }
    }
  }

  /** A candidate joins the representative it duplicates. */
  lemma Joined(candidates: seq<Candidate>, entries: seq<Entry>, c: Candidate, i: nat)
    requires Deduped(candidates, entries) && Sorted(candidates + [c]) && Represents(entries, i, c)
    ensures Deduped(candidates + [c], entries[i := Joining(entries[i], c.id)])
  {
    var entries' := entries[i := Joining(entries[i], c.id)];
    assert JoinedAt(entries, entries', i, c.id);
    assert Represents(entries, i, c) ==> i < |entries|;
    hide Joining, Ids, IdsOf, Before, Duplicate, AllStand, Stands, Represents, Sorted;
    IdsOfUpdate(entries, i, c.id);
    IdsOfPush(candidates, c);
    NewlyStands(candidates, entries, entries', c, i);
    JoinedStands(candidates, entries, entries', c, i);
    JoinedStaysDistinct(candidates, entries, entries', c, i);
    hide Distinct, JoinedAt;
  }

  lemma IdsOfPush(candidates: seq<Candidate>, c: Candidate)
    ensures IdsOf(candidates + [c]) == IdsOf(candidates) + multiset{c.id}
  {
    assert (candidates + [c])[..|candidates|] == candidates;
  }

  lemma JoinedStaysDistinct(candidates: seq<Candidate>, entries: seq<Entry>, entries': seq<Entry>, c: Candidate, i: nat)
    requires Distinct(entries) && JoinedAt(entries, entries', i, c.id)
    requires forall k :: 0 <= k < |entries| ==> entries[k].candidate in candidates
    ensures Distinct(entries')
    ensures forall k :: 0 <= k < |entries'| ==> entries'[k].candidate in candidates + [c]
  {
    hide Before, Duplicate;
  }

  lemma NewlyStands(candidates: seq<Candidate>, entries: seq<Entry>, entries': seq<Entry>, c: Candidate, i: nat)
    requires Sorted(candidates + [c]) && Represents(entries, i, c) && entries[i].candidate in candidates
    requires |entries'| == |entries| && forall k :: 0 <= k < |entries| ==> entries'[k].candidate == entries[k].candidate
    ensures Stands(entries', i, candidates + [c], c.id)
  {
    hide Before, Duplicate;
    var all := candidates + [c];
    var k :| 0 <= k < |candidates| && candidates[k] == entries[i].candidate;
    assert Before(all[k], all[|candidates|]);
    assert Represents(entries', i, all[|candidates|]);
  }

  /** A candidate that duplicates nothing becomes a representative. */
  lemma Founded(candidates: seq<Candidate>, entries: seq<Entry>, c: Candidate)
    requires Deduped(candidates, entries) && Sorted(candidates + [c])
    requires forall k :: 0 <= k < |entries| ==> !Duplicate(entries[k].candidate, c)
    ensures Deduped(candidates + [c], entries + [Entry(c, [])])
  {
    var entries' := entries + [Entry(c, [])];
    assert entries'[..|entries|] == entries;
    assert Ids(entries') == Ids(entries) + multiset{c.id};
    assert forall k :: 0 <= k < |entries| ==> entries'[k] == entries[k];
    hide Ids, IdsOf, Before, Duplicate, AllStand, Stands, Represents;
    IdsOfPush(candidates, c);
    FoundedStands(candidates, entries, c);
    FoundedIsDistinct(candidates, entries, c);
    hide Distinct, Sorted;
    assert forall k :: 0 <= k < |entries'| ==> entries'[k].candidate in candidates + [c];
  }

  lemma FoundedStands(candidates: seq<Candidate>, entries: seq<Entry>, c: Candidate)
    requires AllStand(candidates, entries)
    ensures AllStand(candidates + [c], entries + [Entry(c, [])])
  {
    var entries' := entries + [Entry(c, [])];
    hide Stands;
    forall j, id | 0 <= j < |entries'| && id in entries'[j].collapsed
      ensures Stands(entries', j, candidates + [c], id)
    {
      StandsStill(entries, entries', j, candidates, c, id);
    }
  }

  lemma FoundedIsDistinct(candidates: seq<Candidate>, entries: seq<Entry>, c: Candidate)
    requires Distinct(entries) && Sorted(candidates + [c])
    requires forall k :: 0 <= k < |entries| ==> entries[k].candidate in candidates && !Duplicate(entries[k].candidate, c)
    ensures Distinct(entries + [Entry(c, [])])
  {
    hide Before, Duplicate;
    var all := candidates + [c];
    forall i | 0 <= i < |entries| ensures Before(entries[i].candidate, c) {
      var k :| 0 <= k < |candidates| && candidates[k] == entries[i].candidate;
      assert Before(all[k], all[|candidates|]);
    }
  }

  lemma DedupeBegins(candidates: seq<Candidate>)
    ensures Deduped(candidates[..0], [])
  {
    assert candidates[..0] == [];
  }

  lemma SortedPrefix(candidates: seq<Candidate>, n: nat)
    requires Sorted(candidates) && n <= |candidates|
    ensures Sorted(candidates[..n])
  {
    hide Before;
  }

  method Dedupe(candidates: seq<Candidate>, options: Options) returns (unique: seq<Entry>)
    requires Sorted(candidates)
    ensures options.dedupe ==> Deduped(candidates, unique)
    ensures !options.dedupe ==> |unique| == |candidates| && forall i :: 0 <= i < |unique| ==> unique[i] == Entry(candidates[i], [])
  {
    unique := [];
    hide *;
    DedupeBegins(candidates);
    for n := 0 to |candidates|
      invariant options.dedupe ==> Deduped(candidates[..n], unique)
      invariant !options.dedupe ==> |unique| == n && forall i :: 0 <= i < n ==> unique[i] == Entry(candidates[i], [])
    {
      var c := candidates[n];
      assert candidates[..n + 1] == candidates[..n] + [c];
      SortedPrefix(candidates, n + 1);
      if options.dedupe {
        var i := FindDuplicate(unique, c);
        if i < |unique| {
          Joined(candidates[..n], unique, c, i);
          unique := unique[i := Joining(unique[i], c.id)];
          continue;
        }
        Founded(candidates[..n], unique, c);
      }
      unique := unique + [Entry(c, [])];
    }
    assert candidates[..|candidates|] == candidates;
  }
}
