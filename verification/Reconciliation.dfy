/** The reconciliation controller of one collection. Watchers observe events, a single worker
    runs scans, and readers take snapshots that they validate after reading the store.
    Every method is one critical section, so each is one atomic step of `ReconciliationRuns`. */
module Reconciliation {
  import opened Options
  import opened Scopes
  import opened Coverage

  datatype State = State(
    observed: nat,
    publication: nat,
    nextRun: nat,
    pending: Option<Scope>,
    gitPending: bool,
    active: Option<Ticket>,
    safeRevision: Option<nat>,
    ledger: Ledger,
    watchError: Option<string>)

  /** Two controllers never share an incarnation, even for one collection. */
  datatype Identity = Identity(incarnation: nat, collection: string)

  // ---------------------------------------------------------------- the transitions

  const INITIAL := State(1, 0, 0, Some(Full), false, None, None, EMPTY_LEDGER, None)

  function AfterObserve(s: State, scope: Scope, git: bool): State {
    s.(observed := s.observed + 1, gitPending := s.gitPending || git, pending := Some(Queued(s.pending, scope)))
  }

  function AfterWatchError(s: State, error: Option<string>): State {
    if s.watchError == error then s else s.(watchError := error, publication := s.publication + 1)
  }

  predicate CanBegin(s: State) {
    s.active.None? && s.pending.Some?
  }

  function NewTicket(id: Identity, s: State): Ticket
    requires CanBegin(s)
  {
    Ticket(id.incarnation, id.collection, s.nextRun + 1, s.observed, s.pending.value, s.gitPending)
  }

  function AfterBegin(id: Identity, s: State): State
    requires CanBegin(s)
  {
    s.(pending := None, nextRun := s.nextRun + 1, publication := s.publication + 1,
       gitPending := false, active := Some(NewTicket(id, s)))
  }

  function Widened(ticket: Ticket, scope: Scope): Ticket {
    ticket.(scope := Merge(ticket.scope, scope))
  }

  predicate Matches(id: Identity, active: Option<Ticket>, ticket: Ticket) {
    && id == Identity(ticket.incarnation, ticket.collection)
    && active.Some?
    && active.value.run == ticket.run
    && active.value.observed == ticket.observed
    && active.value.scope == ticket.scope
  }

  function AfterInvalidated(id: Identity, s: State, ticket: Ticket): State {
    if Matches(id, s.active, ticket)
    then s.(safeRevision := Some(ticket.observed), publication := s.publication + 1)
    else s
  }

  function AfterPublish(id: Identity, s: State, ticket: Ticket, key: string, outcome: Option<SourceOutcome>): State {
    if Matches(id, s.active, ticket)
    then s.(ledger := Published(s.ledger, key, outcome), publication := s.publication + 1)
    else s
  }

  /** A report of another kind of scan, or from another run, counts as a failure. */
  function Accepted(id: Identity, s: State, ticket: Ticket, result: ScanResult): ScanResult {
    if && result.Done?
       && (|| result.report.coverage.full != ticket.scope.Full?
           || result.report.coverage.publisher.None?
           || !Matches(id, s.active, result.report.coverage.publisher.value))
    then Failed
    else result
  }

  predicate Completes(id: Identity, s: State, ticket: Ticket, result: ScanResult) {
    && Matches(id, s.active, ticket)
    && Accepted(id, s, ticket, result).Done?
    && Complete(result.report)
  }

  function AfterFinish(id: Identity, s: State, ticket: Ticket, result: ScanResult, now: string): State {
    if !Matches(id, s.active, ticket) then s
    else
      var accepted := Accepted(id, s, ticket, result);
      var closed := s.(ledger := Applied(s.ledger, accepted, now), active := None, publication := s.publication + 1);
      if Completes(id, s, ticket, result) && s.safeRevision == Some(ticket.observed) then closed
      else closed.(pending := Some(Queued(s.pending, if accepted.Failed? then Full else ticket.scope)),
                   gitPending := s.gitPending || ticket.git,
                   safeRevision := None)
  }

  // ---------------------------------------------------------------- reading

  datatype ReadToken = ReadToken(incarnation: nat, observed: nat, publication: nat)

  datatype ReadSnapshot = ReadSnapshot(coverage: CoverageSnapshot, status: Status, eligible: bool, token: ReadToken)

  function Token(id: Identity, s: State): ReadToken {
    ReadToken(id.incarnation, s.observed, s.publication)
  }

  predicate Idle(s: State) {
    s.active.None? && s.pending.None?
  }

  predicate Eligible(s: State) {
    s.safeRevision == Some(s.observed)
  }

  const WATCHER_UNAVAILABLE := "watcher_unavailable"

  function ReadCoverage(s: State, totals: SourceOutcome): CoverageSnapshot {
    var c := SnapshotOf(s.ledger, totals);
    var c := if Idle(s) then c else c.(pendingChanges := None);
    if s.watchError.None? then c
    else c.(errorCount := c.errorCount + 1,
            errors := c.errors + [s.watchError.value],
            diagnostics := c.diagnostics[WATCHER_UNAVAILABLE := Amount(Category(WATCHER_UNAVAILABLE),
                                           SourceOutcome(None, 0, 0, 0, c.diagnostics)) + 1])
  }

  function SnapshotAt(id: Identity, s: State, totals: SourceOutcome): ReadSnapshot {
    var coverage := ReadCoverage(s, totals);
    ReadSnapshot(coverage, StatusOf(coverage), Eligible(s), Token(id, s))
  }

  /** A watch fault is one more error and one more in its category, with its text, and nothing else. */
  lemma WatchFaultIsShown(s: State, totals: SourceOutcome, m: Measure)
    requires m == Pending ==> Idle(s) && Known(s.ledger)
    ensures var seen, shown := SnapshotOf(s.ledger, totals), ReadCoverage(s, totals);
      && Shown(m, shown) == Shown(m, seen) + (if s.watchError.Some? && m in {Errors, Category(WATCHER_UNAVAILABLE)} then 1 else 0)
      && shown.errors == (if s.watchError.Some? then [s.watchError.value] else [])
      && shown.reconciledAt == seen.reconciledAt
  {}

  /** What each status means, of what is queued, stored and discovered. */
  lemma StatusMeans(s: State, totals: SourceOutcome)
    requires Conserved(totals, s.ledger.sources)
    ensures var known := Idle(s) && Known(s.ledger);
      match StatusOf(ReadCoverage(s, totals))
      case Building => !known && s.ledger.reconciledAt.None?
      case Refreshing => if known then Any(Pending, s.ledger) else s.ledger.reconciledAt.Some?
      case Degraded => known && !Any(Pending, s.ledger) && (Any(Errors, s.ledger) || s.watchError.Some?)
      case Ready => known && !Any(Pending, s.ledger) && !Any(Errors, s.ledger) && s.watchError.None?
  {
    hide Any, Conserved, Plus;
    if Idle(s) && Known(s.ledger) {
      WatchFaultIsShown(s, totals, Pending);
      AnyIsShown(s.ledger, totals, Pending);
    }
    WatchFaultIsShown(s, totals, Errors);
    AnyIsShown(s.ledger, totals, Errors);
  }

  // ---------------------------------------------------------------- the controller in place

  class Controller {
    const id: Identity
    var observed: nat
    var publication: nat
    var nextRun: nat
    var pending: Option<Scope>
    var gitPending: bool
    var active: Option<Ticket>
    var safeRevision: Option<nat>
    const ledger: CollectionCoverage
    var watchError: Option<string>

    ghost predicate Valid()
      reads this, ledger
    {
      ledger.Valid()
    }

    ghost function Model(): State
      reads this, ledger
    {
      State(observed, publication, nextRun, pending, gitPending, active, safeRevision, ledger.Model(), watchError)
    }

    constructor (incarnation: nat, collection: string)
      ensures Valid() && fresh(ledger)
      ensures id == Identity(incarnation, collection) && Model() == INITIAL
    {
      id := Identity(incarnation, collection);
      observed, publication, nextRun := 1, 0, 0;
      pending, gitPending, active, safeRevision := Some(Full), false, None, None;
      ledger := new CollectionCoverage();
      watchError := None;
    }

    method Observe(scope: Scope, git: bool)
      requires Valid()
      modifies this
      ensures Valid() && Model() == AfterObserve(old(Model()), scope, git)
    {
      observed := observed + 1;
      gitPending := gitPending || git;
      Queue(scope);
    }

    method Queue(scope: Scope)
      modifies this`pending
      ensures pending == Some(Queued(old(pending), scope))
    {
      var bounded := match scope
        case Sources(paths) => if |paths| > MAX_SCOPE_PATHS then Full else scope
        case Full => scope;
      if pending.Some? {
        pending := Some(Merge(pending.value, bounded));
      } else {
        pending := Some(bounded);
      }
    }

    method WatchError(error: Option<string>)
      requires Valid()
      modifies this
      ensures Valid() && Model() == AfterWatchError(old(Model()), error)
    {
      if watchError != error {
        watchError := error;
        publication := publication + 1;
      }
    }

    method Begin() returns (run: Option<Ticket>)
      requires Valid()
      modifies this
      ensures Valid()
      ensures CanBegin(old(Model())) ==>
                run == Some(NewTicket(id, old(Model()))) && Model() == AfterBegin(id, old(Model()))
      ensures !CanBegin(old(Model())) ==> run == None && Model() == old(Model())
      ensures run.Some? ==> old(nextRun) < run.value.run == nextRun
    {
      if active.Some? || pending.None? {
        return None;
      }
      nextRun := nextRun + 1;
      publication := publication + 1;
      var ticket := Ticket(id.incarnation, id.collection, nextRun, observed, pending.value, gitPending);
      pending, gitPending, active := None, false, Some(ticket);
      run := Some(ticket);
    }

    method Invalidated(ticket: Ticket)
      requires Valid()
      modifies this
      ensures Valid() && Model() == AfterInvalidated(id, old(Model()), ticket)
    {
      if Matches(id, active, ticket) {
        safeRevision := Some(ticket.observed);
        publication := publication + 1;
      }
    }

    /** The publisher's step: only the active run may change an outcome. */
    method Publish(ticket: Ticket, key: string, outcome: Option<SourceOutcome>)
      requires Valid()
      requires outcome.Some? ==> Positive(outcome.value)
      modifies this, ledger
      ensures Valid() && Model() == AfterPublish(id, old(Model()), ticket, key, outcome)
    {
      if Matches(id, active, ticket) {
        ledger.PublishSource(key, outcome);
        publication := publication + 1;
      }
    }

    method Finish(ticket: Ticket, result: ScanResult, now: string) returns (completed: bool)
      requires Valid() && PositiveResult(result)
      modifies this, ledger
      ensures Valid() && Model() == AfterFinish(id, old(Model()), ticket, result, now)
      ensures completed == Completes(id, old(Model()), ticket, result)
    {
      hide Applied, Queued, Conserved;
      if !Matches(id, active, ticket) {
        return false;
      }
      var accepted := result;
      if result.Done? {
        var coverage := result.report.coverage;
        if coverage.full != ticket.scope.Full? || coverage.publisher.None? || !Matches(id, active, coverage.publisher.value) {
          accepted := Failed;
        }
      }
      completed := accepted.Done? && !accepted.report.cancelled && accepted.report.coverage.discoveryComplete
        && accepted.report.coverage.full == ticket.scope.Full?;
      ledger.Apply(accepted, now);
      active := None;
      publication := publication + 1;
      if !completed || safeRevision != Some(ticket.observed) {
        Queue(if accepted.Failed? then Full else ticket.scope);
        gitPending := gitPending || ticket.git;
        safeRevision := None;
      }
    }

    method Snapshot() returns (snapshot: ReadSnapshot)
      requires Valid()
      ensures snapshot == SnapshotAt(id, Model(), ledger.totals)
    {
      var idle := active.None? && pending.None?;
      var coverage := ledger.Snapshot();
      if !idle {
        coverage := coverage.(pendingChanges := None);
      }
      if watchError.Some? {
        var seen := if WATCHER_UNAVAILABLE in coverage.diagnostics then coverage.diagnostics[WATCHER_UNAVAILABLE] else 0;
        coverage := coverage.(errorCount := coverage.errorCount + 1,
                              errors := coverage.errors + [watchError.value],
                              diagnostics := coverage.diagnostics[WATCHER_UNAVAILABLE := seen + 1]);
      }
      snapshot := ReadSnapshot(coverage, StatusOf(coverage), safeRevision == Some(observed),
                               ReadToken(id.incarnation, observed, publication));
    }

    method Validates(snapshot: ReadSnapshot) returns (ok: bool)
      ensures ok == (snapshot.token == Token(id, Model()))
    {
      ok := id.incarnation == snapshot.token.incarnation
        && observed == snapshot.token.observed
        && publication == snapshot.token.publication;
    }
  }

  /** The worker's handle on one run. */
  class Run {
    const controller: Controller
    var ticket: Ticket
    var finished: bool

    constructor (controller: Controller, ticket: Ticket)
      ensures this.controller == controller && this.ticket == ticket && !finished
    {
      this.controller, this.ticket, this.finished := controller, ticket, false;
    }

    /** Discovery may widen the work this run has taken; what arrives meanwhile stays queued. */
    method Widen(scope: Scope)
      requires controller.Valid()
      modifies this`ticket, controller`active
      ensures controller.Valid() && ticket == Widened(old(ticket), scope)
      ensures controller.Model() == old(controller.Model()).(active := Some(ticket))
    {
      ticket := ticket.(scope := Merge(ticket.scope, scope));
      controller.active := Some(ticket);
    }

    /** One project or session run: suppress the stored rows, note it, scan and publish, finish.
        `suppressed` says whether the store accepted the invalidation; if not, nothing is scanned.
        Other threads' steps between these are the business of `ReconciliationRuns`. */
    method Scan(suppressed: bool, publications: seq<(string, Option<SourceOutcome>)>, scanned: ScanResult, now: string)
      returns (completed: bool)
      requires controller.Valid() && PositiveResult(scanned)
      requires forall i :: 0 <= i < |publications| && publications[i].1.Some? ==> Positive(publications[i].1.value)
      modifies this`finished, controller, controller.ledger
      ensures controller.Valid() && finished
      ensures
        var s := old(controller.Model());
        var ready := if suppressed
                     then AfterPublications(controller.id, AfterInvalidated(controller.id, s, ticket), ticket, publications)
                     else s;
        var result := if suppressed then scanned else Failed;
        && controller.Model() == AfterFinish(controller.id, ready, ticket, result, now)
        && completed == Completes(controller.id, ready, ticket, result)
    {
      var result := Failed;
      if suppressed {
        controller.Invalidated(ticket);
        ghost var start := controller.Model();
        for i := 0 to |publications|
          invariant controller.Valid()
          invariant controller.Model() == AfterPublications(controller.id, start, ticket, publications[..i])
        {
          assert publications[..i + 1][..i] == publications[..i];
          controller.Publish(ticket, publications[i].0, publications[i].1);
        }
        assert publications[..|publications|] == publications;
        result := scanned;
      }
      completed := controller.Finish(ticket, result, now);
      finished := true;
    }

    /** Dropping an unfinished run abandons it as a failure. */
    method Drop(now: string)
      requires controller.Valid()
      modifies controller, controller.ledger
      ensures controller.Valid()
      ensures controller.Model() == if finished then old(controller.Model())
                                    else AfterFinish(controller.id, old(controller.Model()), ticket, Failed, now)
    {
      if !finished {
        var _ := controller.Finish(ticket, Failed, now);
      }
    }
  }

  function AfterPublications(id: Identity, s: State, ticket: Ticket, publications: seq<(string, Option<SourceOutcome>)>): State
    decreases |publications|
  {
    if publications == [] then s
    else
      var last := |publications| - 1;
      AfterPublish(id, AfterPublications(id, s, ticket, publications[..last]), ticket, publications[last].0, publications[last].1)
  }

  /** A ticket that is not the active one changes nothing, whatever it is used for. */
  lemma StaleTicketsChangeNothing(id: Identity, s: State, ticket: Ticket, key: string,
                                  outcome: Option<SourceOutcome>, result: ScanResult, now: string)
    requires !Matches(id, s.active, ticket)
    ensures AfterInvalidated(id, s, ticket) == s
    ensures AfterPublish(id, s, ticket, key, outcome) == s
    ensures AfterFinish(id, s, ticket, result, now) == s && !Completes(id, s, ticket, result)
  {}
}
