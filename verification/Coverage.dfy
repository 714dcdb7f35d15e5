/** The collection ledger: one outcome per source, their running totals, and the
    flags that say whether the totals may be presented as complete.
    Counts are unbounded; the 64-bit width of the counters is not modelled. */
module Coverage {
  import opened Options
  import opened Scopes

  datatype SourceOutcome = SourceOutcome(
    version: Option<string>,
    pending: nat,
    errors: nat,
    excluded: nat,
    diagnostics: map<string, nat>)

  const NO_OUTCOME := SourceOutcome(None, 0, 0, 0, map[])

  /** What a ledger can count: three scalars, and one count for each diagnostic category. */
  datatype Measure = Pending | Errors | Excluded | Category(name: string)

  function Amount(m: Measure, o: SourceOutcome): nat {
    match m
    case Pending => o.pending
    case Errors => o.errors
    case Excluded => o.excluded
    case Category(c) => if c in o.diagnostics then o.diagnostics[c] else 0
  }

  /** Every category that is present has been counted at least once. */
  ghost predicate Positive(o: SourceOutcome) {
    forall c :: c in o.diagnostics ==> o.diagnostics[c] > 0
  }

  // ---------------------------------------------------------------- add and subtract

  function Plus(a: SourceOutcome, b: SourceOutcome): SourceOutcome {
    SourceOutcome(a.version, a.pending + b.pending, a.errors + b.errors, a.excluded + b.excluded,
                  map c | c in a.diagnostics.Keys + b.diagnostics.Keys :: Amount(Category(c), a) + Amount(Category(c), b))
  }

  /** What `subtract` needs: no counter goes below zero and no category of `b` is missing. */
  ghost predicate Contains(a: SourceOutcome, b: SourceOutcome) {
    && (forall m: Measure :: Amount(m, b) <= Amount(m, a))
    && b.diagnostics.Keys <= a.diagnostics.Keys
  }

  /** A category of `b` disappears when its count reaches zero; other categories stay as they are. */
  function Minus(a: SourceOutcome, b: SourceOutcome): SourceOutcome
    requires Contains(a, b)
  {
    assert Amount(Pending, b) <= Amount(Pending, a);
    assert Amount(Errors, b) <= Amount(Errors, a);
    assert Amount(Excluded, b) <= Amount(Excluded, a);
    assert forall c :: Amount(Category(c), b) <= Amount(Category(c), a);
    SourceOutcome(a.version, a.pending - b.pending, a.errors - b.errors, a.excluded - b.excluded,
                  map c | c in a.diagnostics && !(c in b.diagnostics && a.diagnostics[c] == b.diagnostics[c])
                    :: Amount(Category(c), a) - Amount(Category(c), b))
  }

  method Add(total: SourceOutcome, other: SourceOutcome) returns (sum: SourceOutcome)
    ensures sum == Plus(total, other)
  {
    var counts := total.diagnostics;
    var todo := other.diagnostics.Keys;
    while todo != {}
      invariant todo <= other.diagnostics.Keys
      invariant counts.Keys == total.diagnostics.Keys + (other.diagnostics.Keys - todo)
      invariant forall c :: c in counts ==>
        counts[c] == Amount(Category(c), total) + if c in todo then 0 else Amount(Category(c), other)
    {
      var c :| c in todo;
      counts := counts[c := (if c in counts then counts[c] else 0) + other.diagnostics[c]];
      todo := todo - {c};
    }
    sum := SourceOutcome(total.version, total.pending + other.pending, total.errors + other.errors,
                         total.excluded + other.excluded, counts);
  }

  method Subtract(total: SourceOutcome, other: SourceOutcome) returns (rest: SourceOutcome)
    requires Contains(total, other)
    ensures rest == Minus(total, other)
  {
    assert Amount(Pending, other) <= Amount(Pending, total);
    assert Amount(Errors, other) <= Amount(Errors, total);
    assert Amount(Excluded, other) <= Amount(Excluded, total);
    assert forall c :: Amount(Category(c), other) <= Amount(Category(c), total);
    var counts := total.diagnostics;
    var todo := other.diagnostics.Keys;
    while todo != {}
      invariant todo <= other.diagnostics.Keys <= total.diagnostics.Keys
      invariant forall c :: c in counts <==>
        (c in total.diagnostics && !(c in other.diagnostics && c !in todo && total.diagnostics[c] == other.diagnostics[c]))
      invariant forall c :: c in counts ==>
        counts[c] == Amount(Category(c), total) - if c in todo then 0 else Amount(Category(c), other)
    {
      var c :| c in todo;
      assert Amount(Category(c), other) <= Amount(Category(c), total);
      counts := counts[c := counts[c] - other.diagnostics[c]];
      if counts[c] == 0 {
        counts := counts - {c};
      }
      todo := todo - {c};
    }
    rest := SourceOutcome(total.version, total.pending - other.pending, total.errors - other.errors,
                          total.excluded - other.excluded, counts);
  }

  /** Subtracting always succeeds after adding. It restores the old totals exactly when those
      held no zero count for a category of the added outcome: such an entry would be dropped. */
  lemma SubtractUndoesAdd(a: SourceOutcome, b: SourceOutcome)
    ensures Contains(Plus(a, b), b)
    ensures Minus(Plus(a, b), b) == a <==>
            forall c :: c in a.diagnostics && c in b.diagnostics ==> a.diagnostics[c] > 0
  {
    var p := Plus(a, b);
    forall m: Measure ensures Amount(m, p) == Amount(m, a) + Amount(m, b) {}
    var r := Minus(p, b);
    if forall c :: c in a.diagnostics && c in b.diagnostics ==> a.diagnostics[c] > 0 {
      assert r.diagnostics == a.diagnostics;
    } else {
      var c :| c in a.diagnostics && c in b.diagnostics && a.diagnostics[c] == 0;
      assert p.diagnostics[c] == b.diagnostics[c];
      assert c !in r.diagnostics;
    }
  }

  /** Why outcomes must carry positive counts: two sources that report the same outcome can both
      be removed again exactly when it holds no zero count. A zero count goes away with the first
      removal, and the second then misses its category. */
  lemma TwoCopiesCanBeRemoved(o: SourceOutcome)
    ensures Contains(Plus(o, o), o)
    ensures Contains(Minus(Plus(o, o), o), o) <==> Positive(o)
  {
    SubtractUndoesAdd(o, o);
    if c :| c in o.diagnostics && o.diagnostics[c] == 0 {
      assert Plus(o, o).diagnostics[c] == o.diagnostics[c];
      assert c !in Minus(Plus(o, o), o).diagnostics;
    }
  }

  // ---------------------------------------------------------------- sums over the stored outcomes

  ghost function SumOf(m: Measure, sources: map<string, SourceOutcome>): nat
    decreases |sources|
  {
    if sources == map[] then 0
    else
      var k :| k in sources;
      Amount(m, sources[k]) + SumOf(m, sources - {k})
  }

  lemma {:induction false} SumWithout(m: Measure, sources: map<string, SourceOutcome>, k: string)
    requires k in sources
    ensures SumOf(m, sources) == Amount(m, sources[k]) + SumOf(m, sources - {k})
    decreases |sources|
  {
    var j :| j in sources && SumOf(m, sources) == Amount(m, sources[j]) + SumOf(m, sources - {j});
    if j != k {
      SumWithout(m, sources - {j}, k);
      SumWithout(m, sources - {k}, j);
      assert sources - {j} - {k} == sources - {k} - {j};
    }
  }

  /** `totals` is the pointwise sum of the stored outcomes. */
  ghost predicate Conserved(totals: SourceOutcome, sources: map<string, SourceOutcome>) {
    && totals.version == None
    && Positive(totals)
    && (forall k :: k in sources ==> Positive(sources[k]))
    && (forall m: Measure :: Amount(m, totals) == SumOf(m, sources))
  }

  /** A category is in the totals exactly when some stored outcome has counted it. */
  lemma CategoryPresence(totals: SourceOutcome, sources: map<string, SourceOutcome>, c: string)
    requires Conserved(totals, sources)
    ensures c in totals.diagnostics <==> exists k :: k in sources && c in sources[k].diagnostics
  {
    assert Amount(Category(c), totals) == SumOf(Category(c), sources);
    SumIsPositive(Category(c), sources);
    forall k | k in sources
      ensures c in sources[k].diagnostics <==> Amount(Category(c), sources[k]) > 0
    {
      assert Positive(sources[k]);
    }
  }

  lemma {:induction false} SumIsPositive(m: Measure, sources: map<string, SourceOutcome>)
    ensures SumOf(m, sources) > 0 <==> exists k :: k in sources && Amount(m, sources[k]) > 0
    decreases |sources|
  {
    if sources != map[] {
      var j :| j in sources && SumOf(m, sources) == Amount(m, sources[j]) + SumOf(m, sources - {j});
      SumIsPositive(m, sources - {j});
      if k :| k in sources && Amount(m, sources[k]) > 0 {
        assert k == j || (k in (sources - {j}) && (sources - {j})[k] == sources[k]);
      }
    }
  }

  /** Totals depend on the stored outcomes only, not on the order in which they arrived. */
  lemma TotalsAreDetermined(t: SourceOutcome, u: SourceOutcome, sources: map<string, SourceOutcome>)
    requires Conserved(t, sources) && Conserved(u, sources)
    ensures t == u
  {
    assert Amount(Pending, t) == Amount(Pending, u);
    assert Amount(Errors, t) == Amount(Errors, u);
    assert Amount(Excluded, t) == Amount(Excluded, u);
    assert forall c :: Amount(Category(c), t) == Amount(Category(c), u);
    assert forall c :: c in t.diagnostics <==> Amount(Category(c), t) > 0;
    assert forall c :: c in u.diagnostics <==> Amount(Category(c), u) > 0;
    assert t.diagnostics == u.diagnostics;
  }

  lemma InsertKeepsConserved(totals: SourceOutcome, sources: map<string, SourceOutcome>, k: string, o: SourceOutcome)
    requires Conserved(totals, sources) && k !in sources && Positive(o)
    ensures Conserved(Plus(totals, o), sources[k := o])
  {
    var more := sources[k := o];
    forall m: Measure ensures Amount(m, Plus(totals, o)) == SumOf(m, more) {
      SumWithout(m, more, k);
      assert more - {k} == sources;
    }
  }

  lemma RemoveKeepsConserved(totals: SourceOutcome, sources: map<string, SourceOutcome>, k: string)
    requires Conserved(totals, sources) && k in sources
    ensures Contains(totals, sources[k])
    ensures Conserved(Minus(totals, sources[k]), sources - {k})
  {
    var o := sources[k];
    assert Positive(o);
    forall m: Measure ensures Amount(m, totals) == Amount(m, o) + SumOf(m, sources - {k}) {
      SumWithout(m, sources, k);
    }
    forall c | c in o.diagnostics ensures c in totals.diagnostics {
      assert Amount(Category(c), totals) >= Amount(Category(c), o) > 0;
    }
    var rest := Minus(totals, o);
    forall m: Measure ensures Amount(m, rest) == SumOf(m, sources - {k}) {}
    forall c | c in rest.diagnostics ensures rest.diagnostics[c] > 0 {
      assert Amount(Category(c), o) <= Amount(Category(c), totals);
    }
  }

  // ---------------------------------------------------------------- the ledger as a value

  /** A key mapped to `None` is a confirmed durable removal. */
  datatype CoverageUpdate = CoverageUpdate(
    publisher: Option<Ticket>,
    full: bool,
    discoveryComplete: bool,
    sources: map<string, Option<SourceOutcome>>,
    discovery: SourceOutcome,
    scope: set<string>)

  datatype ScanReport = ScanReport(cancelled: bool, coverage: CoverageUpdate)

  datatype ScanResult = Failed | Done(report: ScanReport)

  /** The ledger without its totals, which are a function of `sources`. */
  datatype Ledger = Ledger(
    sources: map<string, SourceOutcome>,
    discovery: SourceOutcome,
    scopedDiscovery: SourceOutcome,
    reconstructed: bool,
    unfinished: bool,
    scanFailed: bool,
    discoveryUncertain: bool,
    unfinishedSources: set<string>,
    reconciledAt: Option<string>)

  const EMPTY_LEDGER := Ledger(map[], NO_OUTCOME, NO_OUTCOME, false, false, false, false, {}, None)

  predicate Complete(report: ScanReport) {
    !report.cancelled && report.coverage.discoveryComplete
  }

  ghost predicate PositiveUpdate(update: CoverageUpdate) {
    forall k :: k in update.sources && update.sources[k].Some? ==> Positive(update.sources[k].value)
  }

  ghost predicate PositiveResult(result: ScanResult) {
    result.Done? ==> PositiveUpdate(result.report.coverage)
  }

  function Replaced(sources: map<string, SourceOutcome>, key: string, outcome: Option<SourceOutcome>): map<string, SourceOutcome> {
    if outcome.Some? then sources[key := outcome.value] else sources - {key}
  }

  function Published(l: Ledger, key: string, outcome: Option<SourceOutcome>): Ledger {
    l.(sources := Replaced(l.sources, key, outcome), unfinishedSources := l.unfinishedSources - {key})
  }

  /** The stored outcomes after every entry of the update has been published over `sources`. */
  function Overlaid(sources: map<string, SourceOutcome>, updates: map<string, Option<SourceOutcome>>): map<string, SourceOutcome> {
    map k | k in sources.Keys + updates.Keys && (k in updates ==> updates[k].Some?)
      :: if k in updates then updates[k].value else sources[k]
  }

  lemma RetainedIsForgotten(sources: map<string, SourceOutcome>, updates: map<string, Option<SourceOutcome>>)
    requires sources.Keys <= updates.Keys
    ensures Overlaid(sources, updates) == Overlaid(map[], updates)
  {}

  function WithUpdates(l: Ledger, updates: map<string, Option<SourceOutcome>>): Ledger {
    l.(sources := Overlaid(l.sources, updates), unfinishedSources := l.unfinishedSources - updates.Keys)
  }

  lemma OverlayOneMore(l: Ledger, updates: map<string, Option<SourceOutcome>>, todo: set<string>, key: string)
    requires key in todo && todo <= updates.Keys
    ensures WithUpdates(l, updates - (todo - {key})) == Published(WithUpdates(l, updates - todo), key, updates[key])
  {
    var before, after := updates - todo, updates - (todo - {key});
    assert after == before[key := updates[key]];
    assert Overlaid(l.sources, after) == Replaced(Overlaid(l.sources, before), key, updates[key]);
    assert l.unfinishedSources - after.Keys == l.unfinishedSources - before.Keys - {key};
  }

  function Applied(l: Ledger, result: ScanResult, now: string): Ledger {
    if result.Failed? then
      l.(reconstructed := false, unfinished := true, scanFailed := true)
    else
      var report := result.report;
      var update := report.coverage;
      var rebuilt := update.full && Complete(report);
      Ledger(
        Overlaid(if rebuilt then map[] else l.sources, update.sources),
        if update.full && !report.cancelled then update.discovery else l.discovery,
        if rebuilt then NO_OUTCOME
        else if !update.full && !update.discoveryComplete && !report.cancelled then update.discovery
        else l.scopedDiscovery,
        if update.full then Complete(report) else l.reconstructed,
        !Complete(report),
        if rebuilt then false else l.scanFailed,
        if !update.discoveryComplete then true
        else if update.full && !report.cancelled then false
        else l.discoveryUncertain,
        (if rebuilt then {} else l.unfinishedSources + update.scope) - update.sources.Keys,
        if Complete(report) then Some(now) else l.reconciledAt)
  }

  predicate Known(l: Ledger) {
    l.reconstructed && !l.unfinished && !l.scanFailed && !l.discoveryUncertain && l.unfinishedSources == {}
  }

  /** A completed full update erases the past: but for the clock, the ledger it leaves is a
      function of the update alone, and it is known. */
  lemma FullUpdateForgetsHistory(l1: Ledger, l2: Ledger, report: ScanReport, now: string)
    requires report.coverage.full && Complete(report)
    ensures Applied(l1, Done(report), now) == Applied(l2, Done(report), now)
    ensures Known(Applied(l1, Done(report), now))
    ensures forall k :: k in Applied(l1, Done(report), now).sources <==>
              k in report.coverage.sources && report.coverage.sources[k].Some?
  {}

  function PublishedAll(l: Ledger, publications: seq<(string, Option<SourceOutcome>)>): Ledger
    decreases |publications|
  {
    if publications == [] then l
    else PublishedAll(Published(l, publications[0].0, publications[0].1), publications[1..])
  }

  /** Publishing outcomes one by one while a run is under way changes nothing in the end: the
      final update, which names every published source, leaves the same ledger as it would alone.
      A source may be published any number of times, with any outcome. */
  lemma {:induction false} EarlyPublicationIsAbsorbed(
      l: Ledger, publications: seq<(string, Option<SourceOutcome>)>, report: ScanReport, now: string)
    requires forall i :: 0 <= i < |publications| ==> publications[i].0 in report.coverage.sources
    ensures Applied(PublishedAll(l, publications), Done(report), now) == Applied(l, Done(report), now)
    decreases |publications|
  {
    if publications != [] {
      var (key, outcome) := publications[0];
      var next := Published(l, key, outcome);
      EarlyPublicationIsAbsorbed(next, publications[1..], report, now);
      var updates := report.coverage.sources;
      assert key in updates;
      assert Overlaid(next.sources, updates) == Overlaid(l.sources, updates);
      assert (next.unfinishedSources + report.coverage.scope) - updates.Keys
          == (l.unfinishedSources + report.coverage.scope) - updates.Keys;
    }
  }

  // ---------------------------------------------------------------- what a reader sees

  datatype CoverageSnapshot = CoverageSnapshot(
    diagnostics: map<string, nat>,
    reconciledAt: Option<string>,
    pendingChanges: Option<nat>,
    excludedCount: nat,
    errorCount: nat,
    errors: seq<string>)

  datatype Status = Building | Refreshing | Degraded | Ready

  function StatusOf(s: CoverageSnapshot): Status {
    if s.pendingChanges.None? then
      if s.reconciledAt.None? then Building else Refreshing
    else if s.pendingChanges.value > 0 then Refreshing
    else if s.errorCount > 0 then Degraded
    else Ready
  }

  const RECONCILIATION_FAILED := "reconciliation_failed"

  function SnapshotOf(l: Ledger, totals: SourceOutcome): CoverageSnapshot {
    var total := Plus(Plus(totals, l.discovery), l.scopedDiscovery);
    CoverageSnapshot(
      if l.scanFailed then total.diagnostics[RECONCILIATION_FAILED := 1] else total.diagnostics,
      l.reconciledAt,
      if Known(l) then Some(total.pending) else None,
      total.excluded,
      total.errors + if l.scanFailed then 1 else 0,
      [])
  }

  /** What a reader is shown of a measure. */
  function Shown(m: Measure, s: CoverageSnapshot): nat
    requires m == Pending ==> s.pendingChanges.Some?
  {
    match m
    case Pending => s.pendingChanges.value
    case Errors => s.errorCount
    case Excluded => s.excludedCount
    case Category(c) => if c in s.diagnostics then s.diagnostics[c] else 0
  }

  /** A failed scan adds an error, and has a category of its own. */
  function FromFailure(l: Ledger, m: Measure, counted: nat): nat {
    if !l.scanFailed then counted
    else if m == Errors then counted + 1
    else if m == Category(RECONCILIATION_FAILED) then 1
    else counted
  }

  lemma PlusAdds(a: SourceOutcome, b: SourceOutcome, m: Measure)
    ensures Amount(m, Plus(a, b)) == Amount(m, a) + Amount(m, b)
  {}

  /** Every count a reader is shown is the sum over the stored sources, with what discovery found. */
  lemma SnapshotCounts(l: Ledger, totals: SourceOutcome, m: Measure)
    requires Conserved(totals, l.sources) && (m == Pending ==> Known(l))
    ensures Shown(m, SnapshotOf(l, totals))
         == FromFailure(l, m, SumOf(m, l.sources) + Amount(m, l.discovery) + Amount(m, l.scopedDiscovery))
  {
    PlusAdds(totals, l.discovery, m);
    PlusAdds(Plus(totals, l.discovery), l.scopedDiscovery, m);
    assert Amount(m, totals) == SumOf(m, l.sources);
    hide Plus, SumOf;
  }

  /** The outcomes an update brings. */
  function Brought(updates: map<string, Option<SourceOutcome>>): map<string, SourceOutcome> {
    map k | k in updates && updates[k].Some? :: updates[k].value
  }

  /** After a completed full scan every count shown is the sum over the outcomes the scan brought,
      with what its own discovery found: nothing of it is missing and nothing else is left. */
  lemma FullScanIsShown(l: Ledger, report: ScanReport, now: string, totals: SourceOutcome, m: Measure)
    requires report.coverage.full && Complete(report)
    requires Conserved(totals, Applied(l, Done(report), now).sources)
    ensures var shown := SnapshotOf(Applied(l, Done(report), now), totals);
      && shown.pendingChanges.Some? && shown.reconciledAt == Some(now) && shown.errors == []
      && Shown(m, shown) == SumOf(m, Brought(report.coverage.sources)) + Amount(m, report.coverage.discovery)
  {
    var after := Applied(l, Done(report), now);
    assert after.sources == Brought(report.coverage.sources);
    SnapshotCounts(after, totals, m);
    assert Amount(m, NO_OUTCOME) == 0;
    hide SumOf, Conserved, Plus;
  }

  /** What any other scan leaves shown: outcomes it names replace those stored, and unless it was
      cancelled its discovery replaces that of the last scan of its kind, for a precise scan only if
      it was incomplete. */
  lemma ScanIsShown(l: Ledger, report: ScanReport, now: string, totals: SourceOutcome, m: Measure)
    requires !(report.coverage.full && Complete(report))
    requires Conserved(totals, Applied(l, Done(report), now).sources) && m != Pending
    ensures var update, after := report.coverage, Applied(l, Done(report), now);
      && (forall k :: k in after.sources <==> if k in update.sources then update.sources[k].Some? else k in l.sources)
      && (forall k :: k in after.sources ==>
            after.sources[k] == if k in update.sources then update.sources[k].value else l.sources[k])
      && Shown(m, SnapshotOf(after, totals))
         == FromFailure(l, m, SumOf(m, after.sources)
              + Amount(m, if update.full && !report.cancelled then update.discovery else l.discovery)
              + Amount(m, if !update.full && !update.discoveryComplete && !report.cancelled then update.discovery else l.scopedDiscovery))
  {
    hide SumOf, Conserved, Plus, SnapshotOf, Amount;
    SnapshotCounts(Applied(l, Done(report), now), totals, m);
  }

  /** When a scan leaves coverage known: a full one exactly if it was completed; a precise one exactly if
      it was completed, every source in its scope was reported, and nothing else was left in doubt. */
  lemma KnownExactlyWhen(l: Ledger, result: ScanResult, now: string, totals: SourceOutcome)
    ensures SnapshotOf(Applied(l, result, now), totals).pendingChanges.Some? <==>
      && result.Done? && !result.report.cancelled && result.report.coverage.discoveryComplete
      && (!result.report.coverage.full ==>
            && l.reconstructed && !l.scanFailed && !l.discoveryUncertain
            && forall key :: key in l.unfinishedSources + result.report.coverage.scope ==> key in result.report.coverage.sources)
  {
    hide Plus, Overlaid;
    if result.Done? {
      var update := result.report.coverage;
      NoneLeft(l.unfinishedSources + update.scope, update.sources.Keys);
    }
  }

  lemma NoneLeft(due: set<string>, named: set<string>)
    ensures due - named == {} <==> forall key :: key in due ==> key in named
  {
    if due - named == {} {
      forall key | key in due ensures key in named {
        assert key !in due - named;
      }
    }
  }

  /** Publishing one outcome changes every sum by the difference to the one before it. */
  lemma PublicationCounts(l: Ledger, key: string, outcome: Option<SourceOutcome>, m: Measure)
    ensures var before, after := l.sources, Published(l, key, outcome).sources;
      && SumOf(m, after) + (if key in before then Amount(m, before[key]) else 0)
         == SumOf(m, before) + (if outcome.Some? then Amount(m, outcome.value) else 0)
      && (outcome.Some? <==> key in after)
      && after - {key} == before - {key}
  {
    var before, after := l.sources, Published(l, key, outcome).sources;
    assert after - {key} == before - {key};
    if key in before {
      SumWithout(m, before, key);
    } else {
      assert before - {key} == before;
    }
    if outcome.Some? {
      SumWithout(m, after, key);
    }
    hide SumOf;
  }

  /** Something of this kind is stored, or was found by discovery. */
  ghost predicate Any(m: Measure, l: Ledger) {
    || (exists k :: k in l.sources && Amount(m, l.sources[k]) > 0)
    || Amount(m, l.discovery) > 0 || Amount(m, l.scopedDiscovery) > 0
  }

  lemma AnyIsShown(l: Ledger, totals: SourceOutcome, m: Measure)
    requires Conserved(totals, l.sources) && (m == Pending || m == Errors) && (m == Pending ==> Known(l))
    ensures !l.scanFailed ==> (Shown(m, SnapshotOf(l, totals)) > 0 <==> Any(m, l))
  {
    SnapshotCounts(l, totals, m);
    SumIsPositive(m, l.sources);
    hide SumOf, Conserved, Plus;
  }

  /** "Ready" is a claim about every stored source: nothing pending, no error anywhere. */
  lemma ReadyMeansSettled(l: Ledger, totals: SourceOutcome)
    requires Conserved(totals, l.sources)
    ensures StatusOf(SnapshotOf(l, totals)) == Ready <==>
            && Known(l)
            && (forall k :: k in l.sources ==> l.sources[k].pending == 0 && l.sources[k].errors == 0)
            && l.discovery.pending == l.discovery.errors == 0
            && l.scopedDiscovery.pending == l.scopedDiscovery.errors == 0
  {
    assert Amount(Pending, totals) == SumOf(Pending, l.sources);
    assert Amount(Errors, totals) == SumOf(Errors, l.sources);
    SumIsPositive(Pending, l.sources);
    SumIsPositive(Errors, l.sources);
    assert forall k :: k in l.sources ==> l.sources[k].pending == Amount(Pending, l.sources[k]);
    assert forall k :: k in l.sources ==> l.sources[k].errors == Amount(Errors, l.sources[k]);
  }

  // ---------------------------------------------------------------- the ledger in place

  class CollectionCoverage {
    var sources: map<string, SourceOutcome>
    var totals: SourceOutcome
    var discovery: SourceOutcome
    var scopedDiscovery: SourceOutcome
    var reconstructed: bool
    var unfinished: bool
    var scanFailed: bool
    var discoveryUncertain: bool
    var unfinishedSources: set<string>
    var reconciledAt: Option<string>

    ghost predicate Valid()
      reads this
    {
      Conserved(totals, sources)
    }

    ghost function Model(): Ledger
      reads this
    {
      Ledger(sources, discovery, scopedDiscovery, reconstructed, unfinished, scanFailed,
             discoveryUncertain, unfinishedSources, reconciledAt)
    }

    constructor ()
      ensures Valid() && Model() == EMPTY_LEDGER
    {
      sources, totals, discovery, scopedDiscovery := map[], NO_OUTCOME, NO_OUTCOME, NO_OUTCOME;
      reconstructed, unfinished, scanFailed, discoveryUncertain := false, false, false, false;
      unfinishedSources, reconciledAt := {}, None;
    }

    method PublishSource(key: string, outcome: Option<SourceOutcome>)
      requires Valid()
      requires outcome.Some? ==> Positive(outcome.value)
      modifies this
      ensures Valid() && Model() == Published(old(Model()), key, outcome)
    {
      hide Conserved, SumOf, Plus, Minus, Contains, Positive, Amount;
      unfinishedSources := unfinishedSources - {key};
      if key in sources {
        RemoveKeepsConserved(totals, sources, key);
        var old' := sources[key];
        sources := sources - {key};
        totals := Subtract(totals, old');
      }
      assert sources == old(sources) - {key};
      if outcome.Some? {
        InsertKeepsConserved(totals, sources, key, outcome.value);
        totals := Add(totals, outcome.value);
        sources := sources[key := outcome.value];
        assert sources == old(sources)[key := outcome.value];
      }
    }

    /** Drops every source the full update does not name, taking its counts out of the totals. */
    method RetainNamed(named: set<string>)
      requires Valid()
      modifies this`sources, this`totals
      ensures Valid() && sources == map k | k in old(sources) && k in named :: old(sources)[k]
    {
      var stale := sources.Keys - named;
      while stale != {}
        invariant Valid()
        invariant stale <= sources.Keys - named
        invariant sources.Keys * named == old(sources).Keys * named
        invariant sources.Keys <= stale + named
        invariant forall k :: k in sources ==> k in old(sources) && sources[k] == old(sources)[k]
      {
        var key :| key in stale;
        RemoveKeepsConserved(totals, sources, key);
        totals := Subtract(totals, sources[key]);
        sources := sources - {key};
        stale := stale - {key};
      }
      assert forall k :: k in sources <==> k in old(sources).Keys * named;
    }

    method PublishAll(updates: map<string, Option<SourceOutcome>>)
      requires Valid()
      requires forall k :: k in updates && updates[k].Some? ==> Positive(updates[k].value)
      modifies this
      ensures Valid() && Model() == WithUpdates(old(Model()), updates)
    {
      ghost var start := Model();
      var todo := updates.Keys;
      assert updates - todo == map[];
      while todo != {}
        invariant Valid()
        invariant todo <= updates.Keys
        invariant Model() == WithUpdates(start, updates - todo)
      {
        var key :| key in todo;
        OverlayOneMore(start, updates, todo, key);
        PublishSource(key, updates[key]);
        todo := todo - {key};
      }
      assert updates - todo == updates;
    }

    method Apply(result: ScanResult, now: string)
      requires Valid() && PositiveResult(result)
      modifies this
      ensures Valid() && Model() == Applied(old(Model()), result, now)
    {
      hide Conserved, Positive, Overlaid;
      if result.Failed? {
        reconstructed, unfinished, scanFailed := false, true, true;
        return;
      }
      var report := result.report;
      var update := report.coverage;
      var completed := !report.cancelled && update.discoveryComplete;
      unfinishedSources := unfinishedSources + update.scope;
      if update.full && !completed {
        reconstructed := false;
      }
      if !update.discoveryComplete {
        discoveryUncertain := true;
      } else if update.full && !report.cancelled {
        discoveryUncertain := false;
      }
      if update.full && completed {
        RetainNamed(update.sources.Keys);
        RetainedIsForgotten(sources, update.sources);
        reconstructed, scanFailed := true, false;
        unfinishedSources := {};
        scopedDiscovery := NO_OUTCOME;
      }
      PublishAll(update.sources);
      if update.full && !report.cancelled {
        discovery := update.discovery;
      } else if !update.full && !update.discoveryComplete && !report.cancelled {
        scopedDiscovery := update.discovery;
      }
      unfinished := !completed;
      if completed {
        reconciledAt := Some(now);
      }
    }

    method Snapshot() returns (s: CoverageSnapshot)
      requires Valid()
      ensures s == SnapshotOf(Model(), totals)
    {
      var total := Add(totals, discovery);
      total := Add(total, scopedDiscovery);
      var diagnostics, errors := total.diagnostics, total.errors;
      if scanFailed {
        errors := errors + 1;
        diagnostics := diagnostics[RECONCILIATION_FAILED := 1];
      }
      var known := reconstructed && !unfinished && !scanFailed && !discoveryUncertain && unfinishedSources == {};
      s := CoverageSnapshot(diagnostics, reconciledAt, if known then Some(total.pending) else None,
                            total.excluded, errors, []);
    }
  }
}
