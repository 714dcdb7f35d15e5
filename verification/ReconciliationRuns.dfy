/** Whole runs of a collection: any interleaving of watchers, the worker, the store and restarts.
    The world adds to the controller what its promises are about: the log of observed events,
    the events still owed a scan, and for each stored path whether it is searchable and the
    revision at which its content was last verified. */
module ReconciliationRuns {
  import opened Options
  import opened Scopes
  import opened Coverage
  import opened Reconciliation

  /** Event `i` of the log has revision `i + 1`; the first is the controller's own creation. */
  datatype Event = Event(scope: Scope, git: bool)

  datatype Row = Hidden | Searchable(verified: nat)

  /** Where the worker stands in its run: ticket taken, stored rows suppressed, suppression noted. */
  datatype Phase = NoRun | Begun | Suppressed | Scanning

  datatype World = World(
    id: Identity,
    ctl: State,
    log: seq<Event>,
    outstanding: set<nat>,
    store: map<Path, Row>,
    phase: Phase,
    preciseGap: bool)

  datatype Step =
    | Observe(scope: Scope, git: bool)
    | WatchFault(error: Option<string>)
    | Begin
    | Widen(wider: Scope)
    | Hide(hidden: Path)
    | Suppress
    | NoteSuppressed(noted: Ticket)
    | Commit(path: Path, verified: nat)
    | Publish(publisher: Ticket, key: string, outcome: Option<SourceOutcome>)
    | Finish(finished: Ticket, result: ScanResult, now: string)
    | Restart(incarnation: nat)

  const CREATION := Event(Full, false)

  ghost predicate Init(w: World) {
    && w.ctl == INITIAL
    && w.log == [CREATION] && w.outstanding == {0}
    && (forall p :: p in w.store && w.store[p].Searchable? ==> w.store[p].verified == 0)
    && w.phase == NoRun && !w.preciseGap
  }

  /** When each step can happen. A stale or foreign ticket may turn up at any time; the active one
      is used in the order that owning the run enforces: widen before suppressing, note only what
      was suppressed, report only a noted scan. A failure, or dropping the run, may come at any point.
      The content of a committed row was read from the file after the run began. */
  ghost predicate Enabled(w: World, step: Step) {
    match step
    case Observe(_, _) => true
    case WatchFault(_) => true
    case Begin => CanBegin(w.ctl)
    case Widen(_) => w.phase == Begun
    case Hide(_) => true
    case Suppress => w.phase == Begun
    case NoteSuppressed(t) => Matches(w.id, w.ctl.active, t) ==> w.phase == Suppressed
    case Commit(_, v) => w.phase == Scanning && w.ctl.active.Some? && w.ctl.active.value.observed <= v <= |w.log|
    case Publish(_, _, _) => true
    case Finish(t, r, _) => Matches(w.id, w.ctl.active, t) ==> w.ctl.active == Some(t) && (r.Failed? || w.phase == Scanning)
    case Restart(i) => w.id.incarnation < i
  }

  /** Rows left by an earlier process count as verified before everything this one has observed. */
  function Inherited(store: map<Path, Row>): map<Path, Row> {
    map p | p in store :: if store[p].Searchable? then Searchable(0) else Hidden
  }

  /** An event is discharged when the run that had captured it completes after suppressing and noting. */
  ghost predicate Discharges(w: World, t: Ticket, r: ScanResult) {
    Completes(w.id, w.ctl, t, r) && w.phase == Scanning
  }

  ghost function Next(w: World, step: Step): World
    requires Enabled(w, step)
  {
    match step
    case Observe(scope, git) =>
      w.(ctl := AfterObserve(w.ctl, scope, git), log := w.log + [Event(scope, git)],
         outstanding := w.outstanding + {|w.log|})
    case WatchFault(error) => w.(ctl := AfterWatchError(w.ctl, error))
    case Begin => w.(ctl := AfterBegin(w.id, w.ctl), phase := Begun)
    case Widen(scope) =>
      if w.ctl.active.None? then w
      else w.(ctl := w.ctl.(active := Some(Widened(w.ctl.active.value, scope))))
    case Hide(p) => w.(store := w.store[p := Hidden])
    case Suppress =>
      if w.ctl.active.None? then w
      else w.(store := map p | p in w.store :: if Covers(w.ctl.active.value.scope, p) then Hidden else w.store[p],
              phase := Suppressed)
    case NoteSuppressed(t) =>
      w.(ctl := AfterInvalidated(w.id, w.ctl, t),
         phase := if Matches(w.id, w.ctl.active, t) then Scanning else w.phase)
    case Commit(p, v) => w.(store := w.store[p := Searchable(v)])
    case Publish(t, key, outcome) => w.(ctl := AfterPublish(w.id, w.ctl, t, key, outcome))
    case Finish(t, r, now) =>
      if !Matches(w.id, w.ctl.active, t) then w.(ctl := AfterFinish(w.id, w.ctl, t, r, now))
      else
        w.(ctl := AfterFinish(w.id, w.ctl, t, r, now),
           outstanding := if Discharges(w, t, r) then set i | i in w.outstanding && i >= t.observed else w.outstanding,
           phase := NoRun,
           preciseGap := GapAfter(w, t, r))
    case Restart(i) =>
      World(Identity(i, w.id.collection), INITIAL, [CREATION], {0}, Inherited(w.store), NoRun, false)
  }

  /** Has a precise scan reported incomplete discovery since the last completed full scan? */
  ghost predicate GapAfter(w: World, t: Ticket, r: ScanResult) {
    var accepted := Accepted(w.id, w.ctl, t, r);
    if accepted.Failed? then w.preciseGap
    else if t.scope.Full? then w.preciseGap && !Complete(accepted.report)
    else w.preciseGap || !accepted.report.coverage.discoveryComplete
  }

  ghost predicate IsRun(trace: seq<World>, steps: seq<Step>) {
    && |trace| == |steps| + 1
    && Init(trace[0])
    && forall i :: 0 <= i < |steps| ==> Enabled(trace[i], steps[i]) && trace[i + 1] == Next(trace[i], steps[i])
  }

  // ---------------------------------------------------------------- the invariant

  ghost predicate Owes(scope: Option<Scope>, git: bool, e: Event) {
    scope.Some? && CoversScope(scope.value, e.scope) && (e.git ==> git)
  }

  /** Captured events are owed by the active ticket, the others by the queue. */
  ghost predicate OwedSomewhere(w: World, i: nat)
    requires i < |w.log|
  {
    if w.ctl.active.Some? && i < w.ctl.active.value.observed
    then Owes(Some(w.ctl.active.value.scope), w.ctl.active.value.git, w.log[i])
    else Owes(w.ctl.pending, w.ctl.gitPending, w.log[i])
  }

  ghost predicate NothingLost(w: World) {
    && w.ctl.observed == |w.log|
    && (forall i :: i in w.outstanding ==> i < |w.log|)
    && (forall i :: i in w.outstanding ==> i < |w.log| && OwedSomewhere(w, i))
  }

  ghost predicate ScopesBounded(w: World) {
    && (w.ctl.pending.Some? ==> Bounded(w.ctl.pending.value))
    && (w.ctl.active.Some? ==> Bounded(w.ctl.active.value.scope))
  }

  ghost predicate RunState(w: World) {
    && (w.ctl.active.Some? <==> w.phase != NoRun)
    && (w.ctl.active.Some? ==>
      var t := w.ctl.active.value;
      && Matches(w.id, w.ctl.active, t)
      && t.observed <= |w.log|
      && (forall i: nat :: t.observed <= i < |w.log| ==> i in w.outstanding)
      && (w.ctl.pending.Some? ==> t.observed < |w.log|)
      && (w.ctl.safeRevision.Some? ==> w.ctl.safeRevision.value <= t.observed)
      && (w.ctl.safeRevision == Some(t.observed) <==> w.phase == Scanning))
    && (w.ctl.active.None? && w.ctl.pending.Some? ==> !Eligible(w.ctl))
    && (w.ctl.safeRevision.Some? ==> w.ctl.safeRevision.value <= |w.log|)
  }

  ghost predicate VerifiedSince(w: World, p: Path, revision: nat) {
    p in w.store && w.store[p].Searchable? ==> revision <= w.store[p].verified
  }

  ghost predicate StoreState(w: World) {
    && (forall i: nat, p: Path :: i < |w.log| && i !in w.outstanding && Covers(w.log[i].scope, p) ==> VerifiedSince(w, p, i + 1))
    && (w.ctl.active.Some? && w.phase in {Suppressed, Scanning} ==>
          forall p: Path :: Covers(w.ctl.active.value.scope, p) ==> VerifiedSince(w, p, w.ctl.active.value.observed))
  }

  ghost predicate Inv(w: World) {
    NothingLost(w) && ScopesBounded(w) && RunState(w) && StoreState(w)
  }

  lemma InitInv(w: World)
    requires Init(w)
    ensures Inv(w)
  {}

  lemma ObserveInv(w: World, scope: Scope, git: bool)
    requires Inv(w)
    ensures Inv(Next(w, Observe(scope, git)))
  {
    var w' := Next(w, Observe(scope, git));
    forall i | i in w'.outstanding
      ensures i < |w'.log| && OwedSomewhere(w', i)
    {
      if i < |w.log| {
        assert w'.log[i] == w.log[i] && OwedSomewhere(w, i);
        QueueKeepsWork(w.ctl.pending, scope, w.log[i].scope);
      } else {
        QueueKeepsWork(w.ctl.pending, scope, scope);
      }
    }
    QueueKeepsWork(w.ctl.pending, scope, scope);
    forall i: nat, p: Path | i < |w'.log| && i !in w'.outstanding && Covers(w'.log[i].scope, p)
      ensures VerifiedSince(w', p, i + 1)
    {
      assert w'.log[i] == w.log[i] && VerifiedSince(w, p, i + 1);
    }
    assert forall p: Path, r: nat :: VerifiedSince(w, p, r) ==> VerifiedSince(w', p, r);
  }

  lemma BeginInv(w: World)
    requires Inv(w) && CanBegin(w.ctl)
    ensures Inv(Next(w, Begin))
  {
    var w' := Next(w, Begin);
    forall i | i in w'.outstanding ensures i < |w'.log| && OwedSomewhere(w', i) {
      assert OwedSomewhere(w, i);
    }
    assert forall p: Path, r: nat :: VerifiedSince(w, p, r) ==> VerifiedSince(w', p, r);
  }

  lemma WidenInv(w: World, scope: Scope)
    requires Inv(w) && w.phase == Begun
    ensures Inv(Next(w, Widen(scope)))
  {
    var w' := Next(w, Widen(scope));
    var t := w.ctl.active.value;
    forall i | i in w'.outstanding ensures i < |w'.log| && OwedSomewhere(w', i) {
      assert OwedSomewhere(w, i);
    }
    assert forall p: Path, r: nat :: VerifiedSince(w, p, r) ==> VerifiedSince(w', p, r);
  }

  /** Steps that touch stored rows only. */
  lemma StoreStepInv(w: World, step: Step)
    requires Inv(w) && Enabled(w, step) && (step.Hide? || step.Suppress? || step.Commit?)
    ensures Inv(Next(w, step))
  {
    var w' := Next(w, step);
    forall i | i in w'.outstanding ensures i < |w'.log| && OwedSomewhere(w', i) {
      assert OwedSomewhere(w, i);
    }
    forall i: nat, p: Path | i < |w'.log| && i !in w'.outstanding && Covers(w'.log[i].scope, p)
      ensures VerifiedSince(w', p, i + 1)
    {
      assert VerifiedSince(w, p, i + 1);
    }
    if w'.ctl.active.Some? && w'.phase in {Suppressed, Scanning} {
      forall p: Path | Covers(w'.ctl.active.value.scope, p)
        ensures VerifiedSince(w', p, w'.ctl.active.value.observed)
      {
        if !step.Suppress? { assert VerifiedSince(w, p, w.ctl.active.value.observed); }
      }
    }
  }

  /** Steps that leave events, queue and rows alone. */
  lemma NoteInv(w: World, step: Step)
    requires Inv(w) && Enabled(w, step) && (step.WatchFault? || step.NoteSuppressed? || step.Publish?)
    ensures Inv(Next(w, step))
  {
    hide Published, Owes;
    var w' := Next(w, step);
    forall i | i in w'.outstanding ensures i < |w'.log| && OwedSomewhere(w', i) {
      assert OwedSomewhere(w, i);
    }
    assert forall p: Path, r: nat :: VerifiedSince(w, p, r) ==> VerifiedSince(w', p, r);
  }

  /** The controller re-queues a run exactly when it has not discharged its events. */
  lemma FinishDecides(w: World, t: Ticket, r: ScanResult)
    requires Inv(w) && Matches(w.id, w.ctl.active, t)
    ensures Discharges(w, t, r) <==> Completes(w.id, w.ctl, t, r) && w.ctl.safeRevision == Some(t.observed)
  {}

  lemma FinishInv(w: World, t: Ticket, r: ScanResult, now: string)
    requires Inv(w) && Enabled(w, Finish(t, r, now)) && Matches(w.id, w.ctl.active, t)
    ensures Inv(Next(w, Finish(t, r, now)))
  {
    var w' := Next(w, Finish(t, r, now));
    FinishDecides(w, t, r);
    assert forall p: Path, r: nat :: VerifiedSince(w, p, r) ==> VerifiedSince(w', p, r);
    var back := if Accepted(w.id, w.ctl, t, r).Failed? then Full else t.scope;
    forall i | i in w'.outstanding ensures i < |w'.log| && OwedSomewhere(w', i) {
      assert OwedSomewhere(w, i);
      QueueKeepsWork(w.ctl.pending, back, w.log[i].scope);
    }
    QueueKeepsWork(w.ctl.pending, back, back);
    forall i: nat, p: Path | i < |w'.log| && i !in w'.outstanding && Covers(w'.log[i].scope, p)
      ensures VerifiedSince(w', p, i + 1)
    {
      if i in w.outstanding {
        assert OwedSomewhere(w, i);
        assert VerifiedSince(w, p, t.observed);
      } else {
        assert VerifiedSince(w, p, i + 1);
      }
    }
  }

  lemma StepInv(w: World, step: Step)
    requires Inv(w) && Enabled(w, step)
    ensures Inv(Next(w, step))
  {
    match step
    case Observe(scope, git) => ObserveInv(w, scope, git);
    case Begin => BeginInv(w);
    case Widen(scope) => WidenInv(w, scope);
    case Hide(_) => StoreStepInv(w, step);
    case Suppress => StoreStepInv(w, step);
    case Commit(_, _) => StoreStepInv(w, step);
    case WatchFault(_) => NoteInv(w, step);
    case NoteSuppressed(_) => NoteInv(w, step);
    case Publish(_, _, _) => NoteInv(w, step);
    case Finish(t, r, now) =>
      if Matches(w.id, w.ctl.active, t) {
        FinishInv(w, t, r, now);
      } else {
        assert Next(w, step) == w;
      }
    case Restart(i) =>
      var w' := Next(w, step);
      assert Init(w');
      InitInv(w');
  }

  lemma {:induction false} InvAlways(trace: seq<World>, steps: seq<Step>, k: nat)
    requires IsRun(trace, steps) && k < |trace|
    ensures Inv(trace[k])
  {
    if k == 0 {
      InitInv(trace[0]);
    } else {
      InvAlways(trace, steps, k - 1);
      StepInv(trace[k - 1], steps[k - 1]);
    }
  }

  // ---------------------------------------------------------------- no lost obligation

  /** In every reachable state each event still owed a scan is covered: by the active ticket if
      that run had captured it, otherwise by the queue; and explicit scopes stay within bounds. */
  lemma NoObligationIsLost(trace: seq<World>, steps: seq<Step>, k: nat, i: nat)
    requires IsRun(trace, steps) && k < |trace| && i in trace[k].outstanding
    ensures i < |trace[k].log| && OwedSomewhere(trace[k], i)
    ensures ScopesBounded(trace[k])
  {
    InvAlways(trace, steps, k);
  }

  /** Coverage is presented as known only when no event is owed a scan. */
  lemma KnownMeansNothingOwed(trace: seq<World>, steps: seq<Step>, k: nat, totals: SourceOutcome)
    requires IsRun(trace, steps) && k < |trace|
    ensures ReadCoverage(trace[k].ctl, totals).pendingChanges.Some? ==> trace[k].outstanding == {}
  {
    if Idle(trace[k].ctl) && trace[k].outstanding != {} {
      var i :| i in trace[k].outstanding;
      NoObligationIsLost(trace, steps, k, i);
    }
  }

  /** An event leaves the books only by the end of a run that had captured it, that suppressed the
      rows of its scope, and that completed; and at that moment no row it touches is older than it. */
  lemma DischargeIsEarned(trace: seq<World>, steps: seq<Step>, k: nat, i: nat, p: Path)
    requires IsRun(trace, steps) && k < |steps| && !steps[k].Restart?
    requires i in trace[k].outstanding && i !in trace[k + 1].outstanding
    ensures && steps[k].Finish?
            && Discharges(trace[k], steps[k].finished, steps[k].result)
            && i < steps[k].finished.observed
            && i < |trace[k].log|
            && CoversScope(steps[k].finished.scope, trace[k].log[i].scope)
    ensures Covers(trace[k].log[i].scope, p) ==> VerifiedSince(trace[k + 1], p, i + 1)
  {
    InvAlways(trace, steps, k);
    InvAlways(trace, steps, k + 1);
    assert OwedSomewhere(trace[k], i);
  }

  // ---------------------------------------------------------------- a run is never taken for another

  /** Run `run` of process `incarnation` has begun, and it is not the active one. */
  ghost predicate Over(w: World, incarnation: nat, run: nat) {
    || incarnation < w.id.incarnation
    || (incarnation == w.id.incarnation && run <= w.ctl.nextRun && (w.ctl.active.Some? ==> w.ctl.active.value.run != run))
  }

  ghost predicate Numbered(w: World) {
    w.ctl.active.Some? ==> w.ctl.active.value.run == w.ctl.nextRun && w.ctl.active.value.incarnation == w.id.incarnation
  }

  /** What is over stays so, and numbers only grow. */
  ghost predicate Onward(before: World, after: World, incarnation: nat, run: nat) {
    && (Over(before, incarnation, run) ==> Over(after, incarnation, run))
    && before.id.incarnation <= after.id.incarnation
    && (before.id.incarnation == after.id.incarnation ==> before.ctl.nextRun <= after.ctl.nextRun)
  }

  lemma StepMovesOn(w: World, step: Step, incarnation: nat, run: nat)
    requires Numbered(w) && Enabled(w, step)
    ensures Numbered(Next(w, step)) && Onward(w, Next(w, step), incarnation, run)
  {
    hide Matches, Accepted, Completes, Applied, Published, Queued, Merge;
  }

  lemma OnwardAgain(a: World, b: World, c: World, incarnation: nat, run: nat)
    requires Onward(a, b, incarnation, run) && Onward(b, c, incarnation, run)
    ensures Onward(a, c, incarnation, run)
  {
    hide Over;
  }

  lemma StepAt(trace: seq<World>, steps: seq<Step>, i: nat)
    requires IsRun(trace, steps) && i + 1 < |trace|
    ensures |trace| == |steps| + 1 && Enabled(trace[i], steps[i]) && trace[i + 1] == Next(trace[i], steps[i])
  {}

  lemma {:induction false} NumberedAlways(trace: seq<World>, steps: seq<Step>, k: nat)
    requires IsRun(trace, steps) && k < |trace|
    ensures Numbered(trace[k])
  {
    if k > 0 {
      NumberedAlways(trace, steps, k - 1);
      StepMovesOn(trace[k - 1], steps[k - 1], 0, 0);
    }
  }

  lemma {:induction false} OverForGood(trace: seq<World>, steps: seq<Step>, j: nat, k: nat, incarnation: nat, run: nat)
    requires IsRun(trace, steps) && j <= k < |trace|
    ensures Onward(trace[j], trace[k], incarnation, run)
    decreases k
  {
    hide IsRun, Enabled, Next, Over, Numbered;
    if j < k {
      StepAt(trace, steps, k - 1);
      OverForGood(trace, steps, j, k - 1, incarnation, run);
      NumberedAlways(trace, steps, k - 1);
      StepMovesOn(trace[k - 1], steps[k - 1], incarnation, run);
      OnwardAgain(trace[j], trace[k - 1], trace[k], incarnation, run);
    }
  }

  /** Within one process every run's number is greater than that of every run before it. */
  lemma RunsAreNumberedUpwards(trace: seq<World>, steps: seq<Step>, j: nat, k: nat)
    requires IsRun(trace, steps) && j < k < |steps| && steps[j] == steps[k] == Begin
    ensures trace[j + 1].ctl.active.Some? && trace[k + 1].ctl.active.Some?
    ensures var before, after := trace[j + 1].ctl.active.value, trace[k + 1].ctl.active.value;
      && before.incarnation <= after.incarnation
      && (before.incarnation == after.incarnation ==> before.run < after.run)
  {
    assert trace[j + 1] == Next(trace[j], steps[j]) && trace[k + 1] == Next(trace[k], steps[k]);
    OverForGood(trace, steps, j + 1, k, 0, 0);
  }

  /** Once a run has ended, by finishing, being dropped or a restart, no later state matches its
      ticket or any widening of it. So whoever still holds one can neither note, publish nor finish. */
  lemma EndedRunsNeverMatch(trace: seq<World>, steps: seq<Step>, begun: nat, ended: nat, later: nat, t: Ticket)
    requires IsRun(trace, steps) && begun < ended <= later < |trace| && steps[begun] == Begin
    requires var ticket := trace[begun + 1].ctl.active.value; t.incarnation == ticket.incarnation && t.run == ticket.run
    requires var now := trace[ended]; now.id != trace[begun].id || now.ctl.active.None? || now.ctl.active.value.run != t.run
    ensures !Matches(trace[later].id, trace[later].ctl.active, t)
  {
    assert trace[begun + 1] == Next(trace[begun], steps[begun]);
    OverForGood(trace, steps, begun + 1, ended, 0, 0);
    SameCollection(trace, steps, begun, ended);
    assert Over(trace[ended], t.incarnation, t.run);
    OverForGood(trace, steps, ended, later, t.incarnation, t.run);
  }

  lemma {:induction false} SameCollection(trace: seq<World>, steps: seq<Step>, j: nat, k: nat)
    requires IsRun(trace, steps) && j <= k < |trace|
    ensures trace[j].id.collection == trace[k].id.collection
    decreases k
  {
    if j < k {
      SameCollection(trace, steps, j, k - 1);
      StepAt(trace, steps, k - 1);
      hide IsRun, Matches, Accepted, Completes, Applied, Published, Queued, Merge;
    }
  }

  /** Finishing a run ends it. */
  lemma FinishEndsRun(trace: seq<World>, steps: seq<Step>, begun: nat, finish: nat, later: nat, t: Ticket)
    requires IsRun(trace, steps) && begun < finish < later < |trace| && steps[begun] == Begin && steps[finish].Finish?
    requires var ticket := trace[begun + 1].ctl.active.value; t.incarnation == ticket.incarnation && t.run == ticket.run
    requires steps[finish].finished.run == t.run && Matches(trace[finish].id, trace[finish].ctl.active, steps[finish].finished)
    ensures !Matches(trace[later].id, trace[later].ctl.active, t)
  {
    assert trace[finish + 1] == Next(trace[finish], steps[finish]);
    EndedRunsNeverMatch(trace, steps, begun, finish + 1, later, t);
  }

  // ---------------------------------------------------------------- a clean scan settles everything

  /** The result that settles a run: the report of that very run, on what its ticket asked for, to its end. */
  ghost predicate Settles(w: World, t: Ticket, r: ScanResult) {
    && r.Done? && !r.report.cancelled && r.report.coverage.discoveryComplete
    && r.report.coverage.full == t.scope.Full?
    && r.report.coverage.publisher.Some? && Matches(w.id, w.ctl.active, r.report.coverage.publisher.value)
  }

  /** Only later events are owed. */
  ghost predicate OwedSince(w: World, observed: nat) {
    forall i :: i in w.outstanding ==> observed <= i
  }

  /** If a run whose suppression was noted ends with such a result, what it had captured is not owed any
      more; and if nothing was observed since it began, nothing at all is, readers may read, and the
      snapshot says when. */
  lemma CleanScanSettles(trace: seq<World>, steps: seq<Step>, k: nat)
    requires IsRun(trace, steps) && k < |steps| && steps[k].Finish?
    requires Matches(trace[k].id, trace[k].ctl.active, steps[k].finished) && trace[k].phase == Scanning
    requires Settles(trace[k], steps[k].finished, steps[k].result)
    ensures OwedSince(trace[k + 1], steps[k].finished.observed)
    ensures var after := trace[k + 1];
      steps[k].finished.observed == |trace[k].log| ==>
        && Idle(after.ctl) && Eligible(after.ctl) && after.outstanding == {}
        && after.ctl.ledger.reconciledAt == Some(steps[k].now)
  {
    InvAlways(trace, steps, k);
    StepAt(trace, steps, k);
    hide IsRun, Merge, Queued, Overlaid, StoreState, ScopesBounded;
  }

  /** Any other end of a run, a failure, a cancellation, incomplete discovery, a report of another run
      or of another kind of scan, settles nothing: all that was owed is still owed, the work is queued
      again, with all of it after a failure, and no reader is told that coverage is known. */
  lemma OtherEndsSettleNothing(trace: seq<World>, steps: seq<Step>, k: nat, totals: SourceOutcome)
    requires IsRun(trace, steps) && k < |steps| && steps[k].Finish?
    requires Matches(trace[k].id, trace[k].ctl.active, steps[k].finished)
    requires !Settles(trace[k], steps[k].finished, steps[k].result)
    ensures var t, after := steps[k].finished, trace[k + 1];
      && after.outstanding == trace[k].outstanding
      && after.ctl.pending.Some? && CoversScope(after.ctl.pending.value, t.scope) && (t.git ==> after.ctl.gitPending)
      && !Eligible(after.ctl) && ReadCoverage(after.ctl, totals).pendingChanges.None?
      && (steps[k].result.Failed? ==> after.ctl.pending == Some(Full) && after.ctl.ledger.scanFailed)
  {
    InvAlways(trace, steps, k);
    StepAt(trace, steps, k);
    var w, t := trace[k], steps[k].finished;
    var back := if Accepted(w.id, w.ctl, t, steps[k].result).Failed? then Full else t.scope;
    assert w.ctl.pending.Some? ==> Bounded(w.ctl.pending.value) by { PendingIsBounded(w); }
    QueueKeepsWork(w.ctl.pending, back, back);
    hide IsRun, Merge, Queued, Overlaid, NothingLost, StoreState, ScopesBounded;
  }

  /** A report of another run, or of another kind of scan than the ticket asked for, is a failure, whatever it says. */
  lemma ForeignReportIsFailure(id: Identity, s: State, t: Ticket, r: ScanResult, now: string)
    requires Matches(id, s.active, t) && r.Done?
    requires var update := r.report.coverage;
      update.full != t.scope.Full? || update.publisher.None? || !Matches(id, s.active, update.publisher.value)
    ensures AfterFinish(id, s, t, r, now) == AfterFinish(id, s, t, Failed, now) && !Completes(id, s, t, r)
    ensures AfterFinish(id, s, t, r, now).pending == Some(Full) && AfterFinish(id, s, t, r, now).ledger.sources == s.ledger.sources
  {
    hide Matches;
  }

  ghost predicate CompletesRun(w: World, step: Step) {
    step.Finish? && Completes(w.id, w.ctl, step.finished, step.result)
  }

  /** A run of the process that is alive at `k` completed before. */
  ghost predicate EverCompleted(trace: seq<World>, steps: seq<Step>, k: nat)
    requires |trace| == |steps| + 1 && k < |trace|
  {
    exists j: nat :: j < k && CompletesRun(trace[j], steps[j]) && trace[j].id == trace[k].id
  }

  lemma CompletionIsNoted(w: World, step: Step)
    requires Enabled(w, step)
    ensures var after := Next(w, step);
      if step.Restart? then after.ctl.ledger.reconciledAt.None? && after.id.incarnation > w.id.incarnation
      else after.id == w.id && (after.ctl.ledger.reconciledAt.Some? <==> w.ctl.ledger.reconciledAt.Some? || CompletesRun(w, step))
  {
    hide Matches, Overlaid, Queued, Merge;
  }

  lemma EverCompletedPush(trace: seq<World>, steps: seq<Step>, k: nat)
    requires |trace| == |steps| + 1 && k < |steps|
    requires if steps[k].Restart? then forall j :: 0 <= j <= k ==> trace[j].id != trace[k + 1].id else trace[k + 1].id == trace[k].id
    ensures EverCompleted(trace, steps, k + 1) <==> !steps[k].Restart? && (EverCompleted(trace, steps, k) || CompletesRun(trace[k], steps[k]))
  {
    hide CompletesRun;
    if !steps[k].Restart? {
      if j: nat :| j < k + 1 && CompletesRun(trace[j], steps[j]) && trace[j].id == trace[k + 1].id {
        assert j < k ==> EverCompleted(trace, steps, k);
      }
      if j: nat :| j < k && CompletesRun(trace[j], steps[j]) && trace[j].id == trace[k].id {
        assert EverCompleted(trace, steps, k + 1);
      }
      if CompletesRun(trace[k], steps[k]) {
        assert EverCompleted(trace, steps, k + 1);
      }
    }
  }

  /** Coverage has a time exactly when a run of this process has completed, whatever came between;
      so the status is never "building" again after the first completion. */
  lemma {:induction false} TimeMeansCompleted(trace: seq<World>, steps: seq<Step>, k: nat)
    requires IsRun(trace, steps) && k < |trace|
    ensures |trace| == |steps| + 1
    ensures trace[k].ctl.ledger.reconciledAt.Some? <==> EverCompleted(trace, steps, k)
  {
    hide *;
    RunStarts(trace, steps);
    if k == 0 {
      NeverCompleted(trace, steps);
    } else {
      StepAt(trace, steps, k - 1);
      CompletionIsNoted(trace[k - 1], steps[k - 1]);
      TimeMeansCompleted(trace, steps, k - 1);
      forall j | 0 <= j <= k - 1 && steps[k - 1].Restart? ensures trace[j].id != trace[k].id {
        NoEarlierProcess(trace, steps, j, k - 1);
      }
      EverCompletedPush(trace, steps, k - 1);
    }
  }

  lemma RunStarts(trace: seq<World>, steps: seq<Step>)
    requires IsRun(trace, steps)
    ensures |trace| == |steps| + 1 && trace[0].ctl == INITIAL
  {}

  lemma NeverCompleted(trace: seq<World>, steps: seq<Step>)
    requires |trace| == |steps| + 1 && trace[0].ctl == INITIAL
    ensures trace[0].ctl.ledger.reconciledAt.None? && !EverCompleted(trace, steps, 0)
  {}

  lemma NoEarlierProcess(trace: seq<World>, steps: seq<Step>, j: nat, k: nat)
    requires IsRun(trace, steps) && j <= k < |trace|
    ensures trace[j].id.incarnation <= trace[k].id.incarnation
  {
    OverForGood(trace, steps, j, k, 0, 0);
  }

  // ---------------------------------------------------------------- the ledger is its history

  /** What was last reported for a source in this process: by an accepted publication, by the report
      of a run that was accepted, or, by a completed full run that does not name it, that it is gone. */
  ghost function LastReported(trace: seq<World>, steps: seq<Step>, k: nat, key: string): Option<SourceOutcome>
    requires |trace| == |steps| + 1 && k <= |steps|
  {
    if k == 0 then None
    else
      var w, before := trace[k - 1], LastReported(trace, steps, k - 1, key);
      match steps[k - 1]
      case Publish(t, named, outcome) => if named == key && Matches(w.id, w.ctl.active, t) then outcome else before
      case Finish(t, r, _) =>
        var accepted := Accepted(w.id, w.ctl, t, r);
        if !Matches(w.id, w.ctl.active, t) || accepted.Failed? then before
        else if key in accepted.report.coverage.sources then accepted.report.coverage.sources[key]
        else if t.scope.Full? && Complete(accepted.report) then None
        else before
      case Restart(_) => None
      case _ => before
  }

  function StoredFor(w: World, key: string): Option<SourceOutcome> {
    if key in w.ctl.ledger.sources then Some(w.ctl.ledger.sources[key]) else None
  }

  lemma StepReports(w: World, step: Step, key: string)
    requires Enabled(w, step)
    ensures StoredFor(Next(w, step), key) ==
      match step
      case Publish(t, named, outcome) => if named == key && Matches(w.id, w.ctl.active, t) then outcome else StoredFor(w, key)
      case Finish(t, r, _) =>
        var accepted := Accepted(w.id, w.ctl, t, r);
        if !Matches(w.id, w.ctl.active, t) || accepted.Failed? then StoredFor(w, key)
        else if key in accepted.report.coverage.sources then accepted.report.coverage.sources[key]
        else if t.scope.Full? && Complete(accepted.report) then None
        else StoredFor(w, key)
      case Restart(_) => None
      case _ => StoredFor(w, key)
  {
    hide Matches, Merge, Queued, Completes, Inherited;
  }

  /** In every state of every run the ledger stores for each source just what was last reported for it. */
  lemma {:induction false} LedgerIsHistory(trace: seq<World>, steps: seq<Step>, k: nat, key: string)
    requires IsRun(trace, steps) && k < |trace|
    ensures |trace| == |steps| + 1 && StoredFor(trace[k], key) == LastReported(trace, steps, k, key)
  {
    RunStarts(trace, steps);
    hide IsRun, Next, Enabled, Matches, Accepted;
    if k > 0 {
      LedgerIsHistory(trace, steps, k - 1, key);
      StepAt(trace, steps, k - 1);
      StepReports(trace[k - 1], steps[k - 1], key);
    }
  }

  /** The last word on the watcher in this process. */
  ghost function LastFault(steps: seq<Step>, k: nat): Option<string>
    requires k <= |steps|
  {
    if k == 0 then None
    else
      match steps[k - 1]
      case WatchFault(error) => error
      case Restart(_) => None
      case _ => LastFault(steps, k - 1)
  }

  /** A watch fault is shown from when it is reported until it is withdrawn, whatever happens between. */
  lemma {:induction false} FaultIsShown(trace: seq<World>, steps: seq<Step>, k: nat)
    requires IsRun(trace, steps) && k < |trace|
    ensures |trace| == |steps| + 1 && trace[k].ctl.watchError == LastFault(steps, k)
  {
    RunStarts(trace, steps);
    hide IsRun;
    if k > 0 {
      FaultIsShown(trace, steps, k - 1);
      StepAt(trace, steps, k - 1);
      hide Matches, Accepted, Completes, Applied, Published, Queued, Merge;
    }
  }

  // ---------------------------------------------------------------- the read protocol

  /** What a snapshot is computed from, besides the totals, which the ledger's sources determine. */
  datatype Visible = Visible(
    observed: nat, idle: bool, safeRevision: Option<nat>, ledger: Ledger, watchError: Option<string>)

  function VisibleIn(s: State): Visible {
    Visible(s.observed, Idle(s), s.safeRevision, s.ledger, s.watchError)
  }

  lemma VisibleDeterminesSnapshot(id: Identity, s1: State, s2: State, totals1: SourceOutcome, totals2: SourceOutcome)
    requires VisibleIn(s1) == VisibleIn(s2) && s1.publication == s2.publication
    requires Conserved(totals1, s1.ledger.sources) && Conserved(totals2, s2.ledger.sources)
    ensures SnapshotAt(id, s1, totals1) == SnapshotAt(id, s2, totals2)
  {
    TotalsAreDetermined(totals1, totals2, s1.ledger.sources);
  }

  function TokenIn(w: World): ReadToken {
    Token(w.id, w.ctl)
  }

  ghost predicate TokenLeq(a: ReadToken, b: ReadToken) {
    || a.incarnation < b.incarnation
    || (a.incarnation == b.incarnation && a.observed <= b.observed && a.publication <= b.publication)
  }

  /** No step takes a token back, and a step that keeps it keeps everything a reader can see. */
  lemma StepToken(w: World, step: Step)
    requires Inv(w) && Enabled(w, step)
    ensures TokenLeq(TokenIn(w), TokenIn(Next(w, step)))
    ensures TokenIn(w) == TokenIn(Next(w, step)) ==>
              VisibleIn(w.ctl) == VisibleIn(Next(w, step).ctl) && w.log == Next(w, step).log
  {}

  lemma {:induction false} TokenHolds(trace: seq<World>, steps: seq<Step>, start: nat, k: nat, end: nat)
    requires IsRun(trace, steps) && start <= k <= end < |trace|
    ensures TokenLeq(TokenIn(trace[start]), TokenIn(trace[end]))
    ensures TokenIn(trace[start]) == TokenIn(trace[end]) ==>
              && TokenIn(trace[k]) == TokenIn(trace[start])
              && trace[k].id.incarnation == trace[start].id.incarnation
              && VisibleIn(trace[k].ctl) == VisibleIn(trace[start].ctl)
              && trace[k].log == trace[start].log
    decreases end - start
  {
    if start < end {
      InvAlways(trace, steps, start);
      StepToken(trace[start], steps[start]);
      assert trace[start + 1] == Next(trace[start], steps[start]);
      TokenHolds(trace, steps, start + 1, if k == start then start + 1 else k, end);
    }
  }

  /** Every searchable row is at least as new as every observed event that touches it. */
  ghost predicate RowsAreCurrent(w: World) {
    forall i: nat, p: Path :: i < |w.log| && Covers(w.log[i].scope, p) ==> VerifiedSince(w, p, i + 1)
  }

  /** Reading is safe in every eligible state, also in the middle of a run. */
  lemma EligibleRowsAreCurrent(w: World)
    requires Inv(w) && Eligible(w.ctl)
    ensures RowsAreCurrent(w)
  {
    forall i: nat, p: Path | i < |w.log| && Covers(w.log[i].scope, p)
      ensures VerifiedSince(w, p, i + 1)
    {
      if i in w.outstanding {
        assert OwedSomewhere(w, i);
        assert VerifiedSince(w, p, w.ctl.active.value.observed);
      }
    }
  }

  /** The read protocol, over every interleaving. If a snapshot was eligible and its token still
      validates after the store has been read, then at every step in between a snapshot would have
      been the same, and the rows read at any of those steps were current with respect to every
      event observed up to the validation. */
  lemma ReadProtocol(trace: seq<World>, steps: seq<Step>, snapshot: nat, read: nat, validation: nat,
                     totals: SourceOutcome, totalsAtRead: SourceOutcome)
    requires IsRun(trace, steps) && snapshot <= read <= validation < |trace|
    requires Conserved(totals, trace[snapshot].ctl.ledger.sources)
    requires Conserved(totalsAtRead, trace[read].ctl.ledger.sources)
    requires SnapshotAt(trace[snapshot].id, trace[snapshot].ctl, totals).eligible
    requires SnapshotAt(trace[snapshot].id, trace[snapshot].ctl, totals).token == TokenIn(trace[validation])
    ensures SnapshotAt(trace[read].id, trace[read].ctl, totalsAtRead) == SnapshotAt(trace[snapshot].id, trace[snapshot].ctl, totals)
    ensures trace[read].log == trace[validation].log && RowsAreCurrent(trace[read])
  {
    TokenHolds(trace, steps, snapshot, read, validation);
    VisibleDeterminesSnapshot(trace[read].id, trace[snapshot].ctl, trace[read].ctl, totals, totalsAtRead);
    TokenHolds(trace, steps, snapshot, validation, validation);
    InvAlways(trace, steps, read);
    EligibleRowsAreCurrent(trace[read]);
  }

  // ---------------------------------------------------------------- controller and ledger agree

  /** The keys a scan of explicit paths may report; they depend on the paths alone. */
  ghost predicate KeyOfScope(keysOf: Path -> set<string>, scope: Scope, key: string) {
    scope.Full? || exists p :: p in scope.paths && key in keysOf(p)
  }

  /** What scanners promise about the keys in `scope`: a precise report names exactly the keys of its
      ticket's paths, and a completed report has an entry for every key it names. */
  ghost predicate Honest(keysOf: Path -> set<string>, step: Step) {
    step.Finish? && step.result.Done? ==>
      var update := step.result.report.coverage;
      && (step.finished.scope.Sources? ==> forall key :: key in update.scope <==> KeyOfScope(keysOf, step.finished.scope, key))
      && (Complete(step.result.report) ==> update.scope <= update.sources.Keys)
  }

  ghost predicate FullDue(s: State) {
    (s.active.Some? && s.active.value.scope.Full?) || (s.pending.Some? && s.pending.value.Full?)
  }

  ghost predicate KeyDue(keysOf: Path -> set<string>, s: State, key: string) {
    || (s.active.Some? && KeyOfScope(keysOf, s.active.value.scope, key))
    || (s.pending.Some? && KeyOfScope(keysOf, s.pending.value, key))
  }

  /** What the ledger's flags say is due. */
  ghost predicate FlagsAgree(w: World) {
    && (!w.ctl.ledger.reconstructed ==> FullDue(w.ctl))
    && (w.ctl.ledger.scanFailed ==> FullDue(w.ctl))
    && (w.ctl.ledger.unfinished ==> !Idle(w.ctl))
    && (w.ctl.ledger.discoveryUncertain ==> w.preciseGap || FullDue(w.ctl))
    && (w.preciseGap ==> w.ctl.ledger.discoveryUncertain)
  }

  ghost predicate KeysAgree(keysOf: Path -> set<string>, w: World) {
    forall key :: key in w.ctl.ledger.unfinishedSources ==> KeyDue(keysOf, w.ctl, key)
  }

  ghost predicate Agree(keysOf: Path -> set<string>, w: World) {
    FlagsAgree(w) && KeysAgree(keysOf, w)
  }

  lemma WiderKeys(keysOf: Path -> set<string>, wide: Scope, narrow: Scope, key: string)
    requires CoversScope(wide, narrow) && KeyOfScope(keysOf, narrow, key)
    ensures KeyOfScope(keysOf, wide, key)
  {}

  lemma FinishAgrees(keysOf: Path -> set<string>, w: World, t: Ticket, r: ScanResult, now: string)
    requires Inv(w) && Agree(keysOf, w)
    requires Enabled(w, Finish(t, r, now)) && Honest(keysOf, Finish(t, r, now)) && Matches(w.id, w.ctl.active, t)
    ensures Agree(keysOf, Next(w, Finish(t, r, now)))
  {
    hide Inv, Enabled, Next, Honest, FlagsAgree, KeysAgree;
    FinishFlags(w, t, r, now);
    FinishLeavesKeysDue(keysOf, w, t, r, now);
  }

  lemma FinishFlags(w: World, t: Ticket, r: ScanResult, now: string)
    requires Inv(w) && FlagsAgree(w)
    requires Enabled(w, Finish(t, r, now)) && Matches(w.id, w.ctl.active, t)
    ensures FlagsAgree(Next(w, Finish(t, r, now)))
  {
    var accepted, w' := Accepted(w.id, w.ctl, t, r), Next(w, Finish(t, r, now));
    assert accepted.Done? ==> accepted == r && r.report.coverage.full == t.scope.Full?;
    assert w'.preciseGap == GapAfter(w, t, r) && w'.ctl == AfterFinish(w.id, w.ctl, t, r, now) && w.ctl.active == Some(t);
    FinishQueues(w, t, r, now);
    hide Inv, Next, Enabled, Matches, Completes, Merge, Queued, Overlaid, CoversScope;
    if accepted.Failed? {
      assert w'.ctl.pending == Some(Full);
    } else if w'.ctl.pending.None? {
      assert Complete(r.report);
    }
  }

  /** What is queued when a run ends: what was queued already, and unless it completed, its own work again. */
  lemma FinishQueues(w: World, t: Ticket, r: ScanResult, now: string)
    requires Inv(w) && Matches(w.id, w.ctl.active, t)
    ensures var s := AfterFinish(w.id, w.ctl, t, r, now);
      && s.active.None?
      && (Accepted(w.id, w.ctl, t, r).Failed? ==> s.pending == Some(Full))
      && (w.ctl.pending == Some(Full) ==> s.pending == Some(Full))
      && (!Completes(w.id, w.ctl, t, r) ==> s.pending.Some? && (t.scope.Full? ==> s.pending == Some(Full)))
      && (w.ctl.pending.Some? ==> s.pending.Some?)
  {
    hide NothingLost, RunState, StoreState, Matches, Applied;
  }

  lemma PendingIsBounded(w: World)
    requires Inv(w)
    ensures w.ctl.pending.Some? ==> Bounded(w.ctl.pending.value)
  {}

  lemma FinishLeavesKeysDue(keysOf: Path -> set<string>, w: World, t: Ticket, r: ScanResult, now: string)
    requires Inv(w) && KeysAgree(keysOf, w)
    requires Enabled(w, Finish(t, r, now)) && Honest(keysOf, Finish(t, r, now)) && Matches(w.id, w.ctl.active, t)
    ensures KeysAgree(keysOf, Next(w, Finish(t, r, now)))
  {
    hide NothingLost, StoreState, Merge, Queued, Overlaid;
    var w' := Next(w, Finish(t, r, now));
    var accepted := Accepted(w.id, w.ctl, t, r);
    var back := if accepted.Failed? then Full else t.scope;
    QueueKeepsWork(w.ctl.pending, back, back);
    if w.ctl.pending.Some? {
      QueueKeepsWork(w.ctl.pending, back, w.ctl.pending.value);
    }
    forall key | key in w'.ctl.ledger.unfinishedSources
      ensures KeyDue(keysOf, w'.ctl, key)
    {
      if w.ctl.pending.Some? && KeyOfScope(keysOf, w.ctl.pending.value, key) {
        if w'.ctl.pending != w.ctl.pending {
          WiderKeys(keysOf, w'.ctl.pending.value, w.ctl.pending.value, key);
        }
      } else if accepted.Failed? || t.scope.Sources? || !Complete(accepted.report) {
        assert KeyOfScope(keysOf, t.scope, key);
      }
    }
  }

  lemma ObserveAgrees(keysOf: Path -> set<string>, w: World, scope: Scope, git: bool)
    requires Inv(w) && Agree(keysOf, w)
    ensures Agree(keysOf, Next(w, Observe(scope, git)))
  {
    hide NothingLost, RunState, StoreState;
    var w' := Next(w, Observe(scope, git));
    QueueKeepsWork(w.ctl.pending, scope, scope);
    if w.ctl.pending.Some? {
      QueueKeepsWork(w.ctl.pending, scope, w.ctl.pending.value);
      hide Queued;
      forall key | KeyOfScope(keysOf, w.ctl.pending.value, key) ensures KeyOfScope(keysOf, w'.ctl.pending.value, key) {
        WiderKeys(keysOf, w'.ctl.pending.value, w.ctl.pending.value, key);
      }
    }
  }

  lemma WidenAgrees(keysOf: Path -> set<string>, w: World, scope: Scope)
    requires Inv(w) && Agree(keysOf, w) && w.phase == Begun
    ensures Agree(keysOf, Next(w, Widen(scope)))
  {
    hide NothingLost, ScopesBounded, StoreState;
    var w' := Next(w, Widen(scope));
    var t := w.ctl.active.value;
    MergeCoversExactly(t.scope, scope, "");
    hide Merge;
    forall key | KeyOfScope(keysOf, t.scope, key) ensures KeyOfScope(keysOf, w'.ctl.active.value.scope, key) {
      WiderKeys(keysOf, Widened(t, scope).scope, t.scope, key);
    }
  }

  lemma BeginAgrees(keysOf: Path -> set<string>, w: World)
    requires Inv(w) && Agree(keysOf, w) && CanBegin(w.ctl)
    ensures Agree(keysOf, Next(w, Begin))
  {
    hide NothingLost, ScopesBounded, StoreState, RunState, KeyOfScope;
    var w' := Next(w, Begin);
    assert w'.ctl.active.value.scope == w.ctl.pending.value;
  }

  /** Steps that change neither the queue nor the ticket. */
  lemma NoteAgrees(keysOf: Path -> set<string>, w: World, step: Step)
    requires Inv(w) && Agree(keysOf, w) && Enabled(w, step)
    requires step.WatchFault? || step.Hide? || step.Suppress? || step.NoteSuppressed? || step.Commit? || step.Publish?
    ensures Agree(keysOf, Next(w, step))
  {
    hide NothingLost, ScopesBounded, StoreState, RunState, KeyOfScope, Overlaid;
    var w' := Next(w, step);
    assert w'.ctl.active == w.ctl.active && w'.ctl.pending == w.ctl.pending && w'.preciseGap == w.preciseGap;
    assert w'.ctl.ledger.unfinishedSources <= w.ctl.ledger.unfinishedSources;
    assert forall key :: KeyDue(keysOf, w.ctl, key) ==> KeyDue(keysOf, w'.ctl, key);
  }

  lemma StepAgrees(keysOf: Path -> set<string>, w: World, step: Step)
    requires Inv(w) && Agree(keysOf, w) && Enabled(w, step) && Honest(keysOf, step)
    ensures Agree(keysOf, Next(w, step))
  {
    hide Inv;
    match step
    case Finish(t, r, now) =>
      if Matches(w.id, w.ctl.active, t) {
        FinishAgrees(keysOf, w, t, r, now);
      } else {
        assert Next(w, step) == w;
      }
    case Observe(scope, git) => ObserveAgrees(keysOf, w, scope, git);
    case Widen(scope) => WidenAgrees(keysOf, w, scope);
    case Begin => BeginAgrees(keysOf, w);
    case Restart(_) =>
    case _ => NoteAgrees(keysOf, w, step);
  }

  lemma {:induction false} AgreeAlways(keysOf: Path -> set<string>, trace: seq<World>, steps: seq<Step>, k: nat)
    requires IsRun(trace, steps) && k < |trace|
    requires forall i :: 0 <= i < |steps| ==> Honest(keysOf, steps[i])
    ensures Agree(keysOf, trace[k])
  {
    if k > 0 {
      InvAlways(trace, steps, k - 1);
      AgreeAlways(keysOf, trace, steps, k - 1);
      StepAgrees(keysOf, trace[k - 1], steps[k - 1]);
    }
  }

  /** Whenever the ledger is not reconstructed, a full scan is under way or queued. An idle
      controller presents its coverage as known exactly when no precise scan has reported
      incomplete discovery since the last completed full scan. */
  lemma ControllerAndLedgerAgree(keysOf: Path -> set<string>, trace: seq<World>, steps: seq<Step>, k: nat, totals: SourceOutcome)
    requires IsRun(trace, steps) && k < |trace|
    requires forall i :: 0 <= i < |steps| ==> Honest(keysOf, steps[i])
    ensures !trace[k].ctl.ledger.reconstructed ==> FullDue(trace[k].ctl)
    ensures Idle(trace[k].ctl) ==> (ReadCoverage(trace[k].ctl, totals).pendingChanges.Some? <==> !trace[k].preciseGap)
  {
    AgreeAlways(keysOf, trace, steps, k);
    var l := trace[k].ctl.ledger;
    if Idle(trace[k].ctl) {
      assert forall key :: key in l.unfinishedSources ==> KeyDue(keysOf, trace[k].ctl, key);
    }
  }
}
