/** Evidence from several retrieval lanes, merged per candidate. Scores are real numbers. */
module Lanes {
  import opened Identifiers
  import opened Options
  import opened Similarity

  datatype Lane = Lexical | Meaningful | Definition | PathLane | Expansion

  /** A retrieved hit. Timestamps are text, ordered as text. */
  datatype Hit = Hit(
    id: string,
    path: string,
    score: real,
    collection: string,
    kind: string,
    agent: Option<string>,
    sessionId: Option<string>,
    timestamp: Option<string>)

  /** What a query may return; `glob` matches paths. */
  datatype Filter = Filter(
    collection: string,
    kind: string,
    glob: Option<string -> bool>,
    agent: Option<string>,
    sessionId: Option<string>,
    after: Option<string>,
    before: Option<string>)

  predicate InScope(f: Filter, h: Hit) {
    && h.collection == f.collection
    && h.kind == f.kind
    && (f.glob.Some? ==> f.glob.value(h.path))
    && (f.agent.Some? ==> h.agent == f.agent)
    && (f.sessionId.Some? ==> h.sessionId == f.sessionId)
    && (f.after.Some? ==> h.timestamp.Some? && IdLeq(f.after.value, h.timestamp.value))
    && (f.before.Some? ==> h.timestamp.Some? && !IdLeq(f.before.value, h.timestamp.value))
  }

  /** A window of time begins with its first moment and ends before its last: two windows that meet
      share no hit and leave none out. */
  lemma WindowsMeet(f: Filter, h: Hit, from: string, middle: string, to: string)
    requires IdLeq(from, middle) && IdLeq(middle, to)
    ensures var before, behind, both := f.(after := Some(from), before := Some(middle)), f.(after := Some(middle), before := Some(to)),
                                        f.(after := Some(from), before := Some(to));
      && (InScope(both, h) <==> InScope(before, h) || InScope(behind, h))
      && !(InScope(before, h) && InScope(behind, h))
  {
    if h.timestamp.Some? {
      var t := h.timestamp.value;
      hide IdLeq;
      IdTotal(middle, t);
      if IdLeq(middle, t) { IdTransitive(from, middle, t); }
      if IdLeq(to, t) { IdTransitive(middle, to, t); }
    }
  }

  datatype Evidence = Evidence(lexical: bool, definition: bool, path: bool, meaningful: Option<real>, expansion: Option<real>)

  const NO_EVIDENCE := Evidence(false, false, false, None, None)

  datatype Retrieved = Retrieved(id: string, path: string, bm25: Option<real>, evidence: Evidence)

  // ---------------------------------------------------------------- merging the lanes

  function WithEvidence(c: Retrieved, lane: Lane, score: real): Retrieved {
    match lane
    case Lexical => c.(bm25 := Some(score), evidence := c.evidence.(lexical := true))
    case Meaningful => c.(evidence := c.evidence.(meaningful := Some(score)))
    case Definition => c.(evidence := c.evidence.(definition := true))
    case PathLane => c.(evidence := c.evidence.(path := true))
    case Expansion =>
      c.(evidence := c.evidence.(expansion :=
        Some(if c.evidence.expansion.Some? then More(c.evidence.expansion.value, score) else score)))
  }

  datatype Delivery = Delivery(lane: Lane, hit: Hit)

  function Merged(candidates: map<string, Retrieved>, d: Delivery): map<string, Retrieved> {
    var c := if d.hit.id in candidates then candidates[d.hit.id] else Retrieved(d.hit.id, d.hit.path, None, NO_EVIDENCE);
    candidates[d.hit.id := WithEvidence(c, d.lane, d.hit.score)]
  }

  function Recorded(log: seq<Delivery>): map<string, Retrieved> {
    if log == [] then map[] else Merged(Recorded(log[..|log| - 1]), log[|log| - 1])
  }

  /** An identifier stands for one chunk, so its path is fixed; the lexical and the meaningful
      lane score it once. The expansion lane may score it any number of times. */
  ghost predicate Consistent(log: seq<Delivery>) {
    forall d, e :: d in log && e in log && d.hit.id == e.hit.id ==>
      && d.hit.path == e.hit.path
      && (d.lane == e.lane && (d.lane == Lexical || d.lane == Meaningful) ==> d.hit.score == e.hit.score)
  }

  ghost predicate Delivered(log: seq<Delivery>, lane: Lane, id: string) {
    exists d :: d in log && d.lane == lane && d.hit.id == id
  }

  ghost predicate Scored(log: seq<Delivery>, lane: Lane, id: string, score: real) {
    exists d :: d in log && d.lane == lane && d.hit.id == id && d.hit.score == score
  }

  ghost predicate AtMost(log: seq<Delivery>, lane: Lane, id: string, bound: real) {
    forall d :: d in log && d.lane == lane && d.hit.id == id ==> d.hit.score <= bound
  }

  ghost predicate Located(log: seq<Delivery>, id: string, path: string) {
    exists d :: d in log && d.hit.id == id && d.hit.path == path
  }

  ghost predicate ScoreSums(log: seq<Delivery>, lane: Lane, id: string, score: Option<real>) {
    && (score.Some? <==> Delivered(log, lane, id))
    && (score.Some? ==> Scored(log, lane, id, score.value))
  }

  /** What a merged candidate says, in terms of what was delivered for it in whatever order. */
  ghost predicate Sums(log: seq<Delivery>, c: Retrieved) {
    Located(log, c.id, c.path) && EvidenceSums(log, c)
  }

  ghost predicate EvidenceSums(log: seq<Delivery>, c: Retrieved) {
    && (c.evidence.lexical <==> Delivered(log, Lexical, c.id))
    && (c.evidence.definition <==> Delivered(log, Definition, c.id))
    && (c.evidence.path <==> Delivered(log, PathLane, c.id))
    && ScoreSums(log, Lexical, c.id, c.bm25)
    && ScoreSums(log, Meaningful, c.id, c.evidence.meaningful)
    && ScoreSums(log, Expansion, c.id, c.evidence.expansion)
    && (c.evidence.expansion.Some? ==> AtMost(log, Expansion, c.id, c.evidence.expansion.value))
  }

  /** One more delivery. */
  lemma FactsPush(log: seq<Delivery>, d: Delivery, lane: Lane, id: string, x: real, path: string)
    ensures Delivered(log + [d], lane, id) <==> Delivered(log, lane, id) || (d.lane == lane && d.hit.id == id)
    ensures Scored(log + [d], lane, id, x) <==> Scored(log, lane, id, x) || (d.lane == lane && d.hit.id == id && d.hit.score == x)
    ensures AtMost(log + [d], lane, id, x) <==> AtMost(log, lane, id, x) && (d.lane == lane && d.hit.id == id ==> d.hit.score <= x)
    ensures Located(log + [d], id, path) <==> Located(log, id, path) || (d.hit.id == id && d.hit.path == path)
    ensures AtMost(log, lane, id, x) ==> Delivered(log, lane, id) || forall y :: AtMost(log, lane, id, y)
  {
    assert forall e :: e in log + [d] <==> e in log || e == d;
  }

  lemma {:induction false} RecordedSums(log: seq<Delivery>)
    ensures forall id :: id in Recorded(log) <==> exists d :: d in log && d.hit.id == id
    ensures forall id :: id in Recorded(log) ==> Recorded(log)[id].id == id && Sums(log, Recorded(log)[id])
  {
    if log != [] {
      var front, d := log[..|log| - 1], log[|log| - 1];
      RecordedSums(front);
      assert log == front + [d];
      forall id | id in Recorded(log)
        ensures Recorded(log)[id].id == id && Sums(log, Recorded(log)[id])
      {
        SumsPush(front, d, id);
      }
    }
  }

  lemma SumsPush(front: seq<Delivery>, d: Delivery, id: string)
    requires forall i :: i in Recorded(front) <==> exists e :: e in front && e.hit.id == i
    requires id in Recorded(front) ==> Recorded(front)[id].id == id && Sums(front, Recorded(front)[id])
    requires id in Recorded(front) || id == d.hit.id
    ensures var after := Merged(Recorded(front), d); after[id].id == id && Sums(front + [d], after[id])
  {
    var before := if id in Recorded(front) then Recorded(front)[id] else Retrieved(id, d.hit.path, None, NO_EVIDENCE);
    assert EvidenceSums(front, before) && (Located(front, id, before.path) || (id == d.hit.id && before.path == d.hit.path));
    hide Recorded, EvidenceSums, Located;
    if id == d.hit.id {
      EvidencePush(front, before, d);
    } else {
      OthersPush(front, before, d);
    }
  }

  /** How the facts about one candidate change with a delivery for it. */
  ghost predicate Pushed(log: seq<Delivery>, d: Delivery, lane: Lane) {
    var more, id := log + [d], d.hit.id;
    && (Delivered(more, lane, id) <==> Delivered(log, lane, id) || d.lane == lane)
    && (forall x :: Scored(more, lane, id, x) <==> Scored(log, lane, id, x) || (d.lane == lane && d.hit.score == x))
    && (forall x :: AtMost(more, lane, id, x) <==> AtMost(log, lane, id, x) && (d.lane == lane ==> d.hit.score <= x))
  }

  lemma PushedIs(log: seq<Delivery>, d: Delivery, lane: Lane)
    ensures Pushed(log, d, lane)
  {
    forall x
      ensures Scored(log + [d], lane, d.hit.id, x) <==> Scored(log, lane, d.hit.id, x) || (d.lane == lane && d.hit.score == x)
      ensures AtMost(log + [d], lane, d.hit.id, x) <==> AtMost(log, lane, d.hit.id, x) && (d.lane == lane ==> d.hit.score <= x)
    {
      FactsPush(log, d, lane, d.hit.id, x, "");
    }
    FactsPush(log, d, lane, d.hit.id, 0.0, "");
    hide Delivered, Scored, AtMost, Located;
  }

  lemma OthersPush(log: seq<Delivery>, c: Retrieved, d: Delivery)
    requires Sums(log, c) && c.id != d.hit.id
    ensures Sums(log + [d], c)
  {
    forall lane, x, path ensures
      && (Delivered(log + [d], lane, c.id) <==> Delivered(log, lane, c.id))
      && (Scored(log + [d], lane, c.id, x) <==> Scored(log, lane, c.id, x))
      && (AtMost(log + [d], lane, c.id, x) <==> AtMost(log, lane, c.id, x))
      && (Located(log + [d], c.id, path) <==> Located(log, c.id, path))
    {
      FactsPush(log, d, lane, c.id, x, path);
    }
    hide Delivered, Scored, AtMost, Located;
  }

  lemma EvidencePush(log: seq<Delivery>, c: Retrieved, d: Delivery)
    requires EvidenceSums(log, c) && c.id == d.hit.id && (Located(log, c.id, c.path) || c.path == d.hit.path)
    ensures Sums(log + [d], WithEvidence(c, d.lane, d.hit.score))
  {
    FactsPush(log, d, d.lane, c.id, d.hit.score, c.path);
    hide Delivered, Scored, AtMost, Located;
    PushedIs(log, d, Lexical);
    PushedIs(log, d, Meaningful);
    PushedIs(log, d, Definition);
    PushedIs(log, d, PathLane);
    PushedIs(log, d, Expansion);
    if d.lane == Expansion {
      ExpansionPush(log, c, d);
    }
  }

  lemma ExpansionPush(log: seq<Delivery>, c: Retrieved, d: Delivery)
    requires EvidenceSums(log, c) && c.id == d.hit.id && d.lane == Expansion
    ensures var best := WithEvidence(c, d.lane, d.hit.score).evidence.expansion;
      && best.Some? && ScoreSums(log + [d], Expansion, c.id, best) && AtMost(log + [d], Expansion, c.id, best.value)
  {
    assert forall e :: e in log + [d] <==> e in log || e == d;
    assert d in log + [d];
  }

  /** Merging the same deliveries gives the same candidates, whatever their order, and however
      often each is repeated. */
  lemma DeliveryOrderIsIrrelevant(a: seq<Delivery>, b: seq<Delivery>)
    requires Consistent(a) && forall d :: d in a <==> d in b
    ensures Recorded(a) == Recorded(b)
  {
    RecordedSums(a);
    RecordedSums(b);
    forall id | id in Recorded(a) ensures id in Recorded(b) && Recorded(a)[id] == Recorded(b)[id] {
      SumsAgree(a, b, Recorded(a)[id], Recorded(b)[id]);
    }
  }

  lemma SumsAgree(a: seq<Delivery>, b: seq<Delivery>, c: Retrieved, e: Retrieved)
    requires Consistent(a) && (forall d :: d in a <==> d in b) && Sums(a, c) && Sums(b, e) && c.id == e.id
    ensures c == e
  {
    assert forall lane, id :: Delivered(a, lane, id) <==> Delivered(b, lane, id);
  }
}
