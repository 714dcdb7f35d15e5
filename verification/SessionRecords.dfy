/** What a read makes of a session file, record by record: which record is which, whose the file is,
    and which records repeat an event and so count for nothing. */
module SessionRecords {
  import opened Options
  import opened Bytes
  import opened SessionFraming
  import opened SessionIds
  import opened SessionReading
  import opened SessionHistory

  // ---------------------------------------------------------------- which record is which

  /** What the first pass prepares for line `k` of those it reads from `c` on. */
  function PreparedFor<C>(env: Env<C>, c: Cursor, lines: seq<seq<byte>>, k: nat): Prepared
    requires k < |lines|
  {
    var before := Scan(env, c, lines[..k]);
    var start := c.start + |Concat(lines[..k])|;
    Prepared(Record(RecordRef(if before.hashing then env.hash(lines[k]) else "", start, start + |lines[k]|, c.line + k), lines[k]),
             env.inspect(lines[k], Acceptable(before.findings)).Malformed?)
  }

  ghost predicate PreparedAs<C>(env: Env<C>, c: Cursor, lines: seq<seq<byte>>, prepared: seq<Prepared>) {
    && |prepared| == |c.findings.prepared| + |lines|
    && prepared[..|c.findings.prepared|] == c.findings.prepared
    && forall k: nat :: k < |lines| ==> prepared[|c.findings.prepared| + k] == PreparedFor(env, c, lines, k)
  }

  /** Every line becomes one record, with its own bytes, their range, its number and their digest. */
  lemma {:induction false} RecordsAreLines<C>(env: Env<C>, c: Cursor, lines: seq<seq<byte>>)
    ensures PreparedAs(env, c, lines, Scan(env, c, lines).findings.prepared)
    decreases |lines|
  {
    if lines != [] {
      var front, last := lines[..|lines| - 1], lines[|lines| - 1];
      assert lines == front + [last];
      assert Scan(env, c, lines) == Advance(env, Scan(env, c, front), last);
      hide *;
      RecordsAreLines(env, c, front);
      AdvancePrepares(env, Scan(env, c, front), last);
      LastIsPrepared(env, c, front, last);
      PreparedAsPush(env, c, front, last, Scan(env, c, front).findings.prepared);
    }
  }

  lemma PreparedAsPush<C>(env: Env<C>, c: Cursor, front: seq<seq<byte>>, last: seq<byte>, prepared: seq<Prepared>)
    requires PreparedAs(env, c, front, prepared)
    ensures PreparedAs(env, c, front + [last], prepared + [PreparedFor(env, c, front + [last], |front|)])
  {
    hide PreparedFor;
    var n := |c.findings.prepared|;
    var lines, all := front + [last], prepared + [PreparedFor(env, c, front + [last], |front|)];
    assert all[..n] == prepared[..n];
    forall k: nat | k < |lines| ensures all[n + k] == PreparedFor(env, c, lines, k) {
      if k < |front| {
        PreparedForFront(env, c, front, last, k);
        assert all[n + k] == prepared[n + k];
      }
    }
  }

  lemma PreparedForFront<C>(env: Env<C>, c: Cursor, front: seq<seq<byte>>, last: seq<byte>, k: nat)
    requires k < |front|
    ensures PreparedFor(env, c, front + [last], k) == PreparedFor(env, c, front, k)
  {
    assert (front + [last])[..k] == front[..k];
  }

  lemma LastIsPrepared<C>(env: Env<C>, c: Cursor, front: seq<seq<byte>>, last: seq<byte>)
    ensures var before := Scan(env, c, front);
      PreparedFor(env, c, front + [last], |front|)
      == Prepared(NextRecord(env, before, last), env.inspect(last, Acceptable(before.findings)).Malformed?)
  {
    assert (front + [last])[..|front|] == front;
    ScanMovesOn(env, c, front);
    hide Scan, Concat;
  }

  lemma AdvancePrepares<C>(env: Env<C>, c: Cursor, bytes: seq<byte>)
    ensures Advance(env, c, bytes).findings.prepared
         == c.findings.prepared + [Prepared(NextRecord(env, c, bytes), env.inspect(bytes, Acceptable(c.findings)).Malformed?)]
  {}

  function Malformed(items: seq<Prepared>): nat {
    if items == [] then 0 else Malformed(items[..|items| - 1]) + if items[|items| - 1].malformed then 1 else 0
  }

  /** Each malformed record is counted once when it is inspected and once when it is its turn to be
      normalised, and nothing else is counted as one when records are inspected. */
  lemma {:induction false} MalformedAreCounted<C>(env: Env<C>, c: Cursor, lines: seq<seq<byte>>)
    ensures var f := Scan(env, c, lines).findings;
      f.diagnostics["malformed_record"] + Malformed(c.findings.prepared) == c.findings.diagnostics["malformed_record"] + Malformed(f.prepared)
    decreases |lines|
  {
    if lines != [] {
      var front, last := lines[..|lines| - 1], lines[|lines| - 1];
      MalformedAreCounted(env, c, front);
      AdvanceCounts(env, Scan(env, c, front), last);
      hide Advance, Malformed;
    }
  }

  lemma AdvanceCounts<C>(env: Env<C>, c: Cursor, line: seq<byte>)
    ensures var f := Advance(env, c, line).findings;
      f.diagnostics["malformed_record"] + Malformed(c.findings.prepared) == c.findings.diagnostics["malformed_record"] + Malformed(f.prepared)
  {
    var prepared := c.findings.prepared;
    var item := Prepared(NextRecord(env, c, line), env.inspect(line, Acceptable(c.findings)).Malformed?);
    assert (prepared + [item])[..|prepared|] == prepared;
    AdvancePrepares(env, c, line);
    assert "metadata"[1] != "malformed_record"[1];
  }

  // ---------------------------------------------------------------- whose the file is

  /** Whose working directory a line names, looked at in full. */
  function OwnerOf<C>(env: Env<C>, line: seq<byte>): Option<Owner> {
    var seen := env.inspect(line, true);
    if seen.Inspected? then seen.owner else None
  }

  function SessionOf<C>(env: Env<C>, line: seq<byte>): Option<string> {
    var seen := env.inspect(line, true);
    if seen.Inspected? then seen.sessionId else None
  }

  predicate Foreign(owner: Option<Owner>) {
    owner == Some(Other) || owner == Some(Unknown)
  }

  ghost predicate AnyForeign<C>(env: Env<C>, lines: seq<seq<byte>>) {
    exists k :: 0 <= k < |lines| && Foreign(OwnerOf(env, lines[k]))
  }

  ghost predicate AnyMine<C>(env: Env<C>, lines: seq<seq<byte>>) {
    exists k :: 0 <= k < |lines| && OwnerOf(env, lines[k]) == Some(Mine)
  }

  /** The first session that a line names. */
  function FirstSession<C>(env: Env<C>, lines: seq<seq<byte>>): Option<string> {
    if lines == [] then None
    else if SessionOf(env, lines[0]).Some? then SessionOf(env, lines[0])
    else FirstSession(env, lines[1..])
  }

  lemma {:induction false} FirstSessionPush<C>(env: Env<C>, lines: seq<seq<byte>>, line: seq<byte>)
    ensures FirstSession(env, lines + [line]) == FirstHint(FirstSession(env, lines), SessionOf(env, line))
  {
    if lines == [] {
      assert [] + [line] == [line] && [line][1..] == [];
    } else {
      assert (lines + [line])[1..] == lines[1..] + [line];
      FirstSessionPush(env, lines[1..], line);
    }
  }

  /** While no line names a foreign directory, all lines are looked at in full. */
  ghost predicate Found<C>(env: Env<C>, c: Cursor, lines: seq<seq<byte>>, f: Findings) {
    && (Acceptable(f) <==> !AnyForeign(env, lines))
    && (Acceptable(f) ==>
          && (f.currentCwd <==> c.findings.currentCwd || AnyMine(env, lines))
          && (f.sawCwd <==> c.findings.sawCwd || AnyMine(env, lines))
          && f.hint == FirstHint(c.findings.hint, FirstSession(env, lines)))
  }

  lemma {:induction false} ScanFinds<C>(env: Env<C>, c: Cursor, lines: seq<seq<byte>>)
    requires Acceptable(c.findings)
    ensures Found(env, c, lines, Scan(env, c, lines).findings)
    decreases |lines|
  {
    if lines == [] {
      assert !AnyForeign(env, []) && !AnyMine(env, []) && FirstSession(env, []) == None;
    } else {
      var front, last := lines[..|lines| - 1], lines[|lines| - 1];
      assert lines == front + [last];
      ScanFinds(env, c, front);
      FirstSessionPush(env, front, last);
      AnyPush(env, front, last);
      var before := Scan(env, c, front);
      AdvanceFinds(env, before, last);
      hide AnyForeign, AnyMine, FirstSession, OwnerOf, SessionOf, Advance;
    }
  }

  lemma AdvanceFinds<C>(env: Env<C>, c: Cursor, line: seq<byte>)
    ensures var f := Advance(env, c, line).findings;
      && (Acceptable(f) ==> Acceptable(c.findings))
      && (Acceptable(c.findings) ==>
            && (Acceptable(f) <==> !Foreign(OwnerOf(env, line)))
            && (f.currentCwd <==> c.findings.currentCwd || OwnerOf(env, line) == Some(Mine))
            && (Acceptable(f) ==> (f.sawCwd <==> c.findings.sawCwd || OwnerOf(env, line) == Some(Mine)))
            && f.hint == FirstHint(c.findings.hint, SessionOf(env, line)))
  {
    if OwnerOf(env, line).Some? {
      match OwnerOf(env, line).value
      case Mine =>
      case Other =>
      case Unknown =>
    }
  }

  lemma AnyPush<C>(env: Env<C>, lines: seq<seq<byte>>, line: seq<byte>)
    ensures AnyForeign(env, lines + [line]) <==> AnyForeign(env, lines) || Foreign(OwnerOf(env, line))
    ensures AnyMine(env, lines + [line]) <==> AnyMine(env, lines) || OwnerOf(env, line) == Some(Mine)
  {
    hide OwnerOf, Foreign;
    var all := lines + [line];
    assert all[|lines|] == line && forall k :: 0 <= k < |lines| ==> all[k] == lines[k];
  }

  /** A full read of a steady file takes it exactly when a record names a working directory of this
      collection and none names another's or one that nobody knows. */
  lemma TakenExactlyWhen<C>(env: Env<C>, ctx: Context, file: seq<byte>)
    ensures FullRead(env, ctx, file).Accepted? <==> AnyMine(env, Lines(file)) && !AnyForeign(env, Lines(file))
  {
    FullReadIs(env, ctx, file);
    ScanFinds(env, FRESH, Lines(file));
    hide AnyForeign, AnyMine, Scan, FullRead, PrefixParse, Lines, Tail;
  }

  /** Directories are seen also where nothing else is looked at. */
  ghost predicate ShowsOwners<C>(env: Env<C>) {
    forall line :: var seen := env.inspect(line, false); OwnerOf(env, line) == if seen.Inspected? then seen.owner else None
  }

  ghost predicate AnyOf<C>(env: Env<C>, lines: seq<seq<byte>>, owner: Owner) {
    exists k :: 0 <= k < |lines| && OwnerOf(env, lines[k]) == Some(owner)
  }

  lemma AnyOfPush<C>(env: Env<C>, lines: seq<seq<byte>>, line: seq<byte>, owner: Owner)
    ensures AnyOf(env, lines + [line], owner) <==> AnyOf(env, lines, owner) || OwnerOf(env, line) == Some(owner)
  {
    hide OwnerOf;
    var all := lines + [line];
    assert all[|lines|] == line && forall k :: 0 <= k < |lines| ==> all[k] == lines[k];
  }

  lemma {:induction false} ScanSeesOwners<C>(env: Env<C>, c: Cursor, lines: seq<seq<byte>>)
    requires ShowsOwners(env)
    ensures var f := Scan(env, c, lines).findings;
      && (f.currentCwd <==> c.findings.currentCwd || AnyOf(env, lines, Mine))
      && (f.otherCwd <==> c.findings.otherCwd || AnyOf(env, lines, Other))
      && (f.unknownCwd <==> c.findings.unknownCwd || AnyOf(env, lines, Unknown))
    decreases |lines|
  {
    if lines == [] {
      assert !AnyOf(env, [], Mine) && !AnyOf(env, [], Other) && !AnyOf(env, [], Unknown);
    } else {
      var front, last := lines[..|lines| - 1], lines[|lines| - 1];
      assert lines == front + [last];
      ScanSeesOwners(env, c, front);
      AnyOfPush(env, front, last, Mine);
      AnyOfPush(env, front, last, Other);
      AnyOfPush(env, front, last, Unknown);
      AdvanceSeesOwners(env, Scan(env, c, front), last);
      hide AnyOf, OwnerOf, Advance, ShowsOwners;
    }
  }

  lemma AdvanceSeesOwners<C>(env: Env<C>, c: Cursor, line: seq<byte>)
    requires ShowsOwners(env)
    ensures var f := Advance(env, c, line).findings;
      && (f.currentCwd <==> c.findings.currentCwd || OwnerOf(env, line) == Some(Mine))
      && (f.otherCwd <==> c.findings.otherCwd || OwnerOf(env, line) == Some(Other))
      && (f.unknownCwd <==> c.findings.unknownCwd || OwnerOf(env, line) == Some(Unknown))
  {
    assert OwnerOf(env, line) == if env.inspect(line, false).Inspected? then env.inspect(line, false).owner else None;
  }

  /** A file is excluded, rather than refused for now, exactly when it names directories of others and
      no other directory: then it is nobody's mistake that it is not ours. */
  lemma ExcludedExactlyWhen<C>(env: Env<C>, ctx: Context, file: seq<byte>)
    requires ShowsOwners(env)
    ensures var attempt, lines := FullRead(env, ctx, file), Lines(file);
      attempt.Rejected? && attempt.excluded <==> AnyOf(env, lines, Other) && !AnyOf(env, lines, Mine) && !AnyOf(env, lines, Unknown)
  {
    FullReadIs(env, ctx, file);
    ScanSeesOwners(env, FRESH, Lines(file));
    SawIsSome(env, FRESH, Lines(file));
    hide AnyOf, Scan, FullRead, PrefixParse, Lines, Tail, ShowsOwners;
  }

  lemma {:induction false} SawIsSome<C>(env: Env<C>, c: Cursor, lines: seq<seq<byte>>)
    requires c.findings.otherCwd ==> c.findings.sawCwd
    ensures Scan(env, c, lines).findings.otherCwd ==> Scan(env, c, lines).findings.sawCwd
    decreases |lines|
  {
    if lines != [] {
      SawIsSome(env, c, lines[..|lines| - 1]);
    }
  }

  /** The session a record is first taken to belong to is the first that any record names. */
  lemma HintIsFirstSession<C>(env: Env<C>, file: seq<byte>)
    ensures !AnyForeign(env, Lines(file)) ==> Scan(env, FRESH, Lines(file)).findings.hint == FirstSession(env, Lines(file))
  {
    ScanFinds(env, FRESH, Lines(file));
    hide AnyForeign, AnyMine, Scan;
  }

  /** A checkpoint of another layout, provider, file, owner or registry, or from behind the end of the
      file, is as good as none. */
  lemma ForeignCheckpointIsIgnored<C>(env: Env<C>, ctx: Context, o: Observation, stored: Stored<C>)
    requires var state := stored.checkpoint.state;
      || state.None? || state.value.schema != CHECKPOINT_SCHEMA || state.value.provider != ctx.provider
      || state.value.identity != ctx.identity || state.value.ownerKey != ctx.ownerKey
      || state.value.registryRevision != ctx.registryRevision || stored.checkpoint.offset > o.length
    ensures Attempted(env, ctx, o, Some(stored)) == Attempted(env, ctx, o, None)
  {
    hide Attempted;
    FreshAttempt(env, ctx, o, stored);
  }

  // ---------------------------------------------------------------- repeated events

  /** A well-formed record of event `event` with digest `digest`. */
  predicate Tells<C>(env: Env<C>, item: Prepared, event: string, digest: string) {
    !item.malformed && env.summarize(item.record.bytes).eventId == Some(event) && item.record.ref.digest == digest
  }

  ghost predicate Told<C>(env: Env<C>, items: seq<Prepared>, event: string, digest: string) {
    exists k :: 0 <= k < |items| && Tells(env, items[k], event, digest)
  }

  /** Event and digest have both been there before, in one record. */
  ghost predicate Repeats<C>(env: Env<C>, before: seq<Prepared>, item: Prepared) {
    exists event :: Tells(env, item, event, item.record.ref.digest) && Told(env, before, event, item.record.ref.digest)
  }

  /** The items that repeat none before them, be it in `before` or among themselves. */
  ghost function Novel<C>(env: Env<C>, before: seq<Prepared>, items: seq<Prepared>): seq<Prepared>
    decreases |items|
  {
    if items == [] then []
    else
      var front, last := items[..|items| - 1], items[|items| - 1];
      Novel(env, before, front) + if Repeats(env, before + front, last) then [] else [last]
  }

  /** Normalising a record without asking whether it has been there. */
  function Taken<C>(env: Env<C>, p: Parse<C>, item: Prepared): Parse<C> {
    if item.malformed then p.(diagnostics := p.diagnostics + multiset{"malformed_record"})
    else
      var Summary(event, session) := env.summarize(item.record.bytes);
      var ids := if event.Some? then Inserted(p.ids, IdKey("seen_event", event.value + ":" + item.record.ref.digest), "1") else p.ids;
      var sessionId := if session.Some? then session else p.sessionId;
      var normal := env.normalize(item.record, ids, sessionId);
      Parse(InsertedAll(ids, normal.inserts), sessionId, p.chunks + normal.chunks, p.diagnostics + normal.diagnostics)
  }

  function TakenAll<C>(env: Env<C>, p: Parse<C>, items: seq<Prepared>): Parse<C>
    decreases |items|
  {
    if items == [] then p else Taken(env, TakenAll(env, p, items[..|items| - 1]), items[|items| - 1])
  }

  /** What normalisation remembers is not events, and digests are hexadecimal. */
  ghost predicate Plain<C>(env: Env<C>) {
    && (forall bytes :: ':' !in env.hash(bytes))
    && (forall record, ids, session, k ::
          var inserts := env.normalize(record, ids, session).inserts;
          0 <= k < |inserts| ==> inserts[k].0.kind != SEEN_EVENT)
  }

  ghost predicate Digested(items: seq<Prepared>) {
    forall k :: 0 <= k < |items| ==> ':' !in items[k].record.ref.digest
  }

  /** The identifiers tell of exactly the events that the items told. */
  ghost predicate Recalls<C>(env: Env<C>, ids: Ids, items: seq<Prepared>) {
    forall event, digest :: ':' !in digest ==> (SeenKey(event, digest) in ids <==> Told(env, items, event, digest))
  }

  /** The key keeps event and digest apart, as no digest has a colon. */
  lemma SeenKeyIsInjective(event: string, digest: string, event': string, digest': string)
    requires ':' !in digest && ':' !in digest'
    ensures SeenKey(event, digest) == SeenKey(event', digest') <==> event == event' && digest == digest'
  {
    var a, b := event + ":" + digest, event' + ":" + digest';
    ColonIsLast(event, digest);
    ColonIsLast(event', digest');
    if a == b {
      assert |event| == |event'|;
      assert event == a[..|event|] && event' == b[..|event'|];
      assert digest == a[|event| + 1..] && digest' == b[|event'| + 1..];
    }
  }

  lemma ColonIsLast(event: string, digest: string)
    requires ':' !in digest
    ensures var key := event + ":" + digest;
      key[|event|] == ':' && forall i :: |event| < i < |key| ==> key[i] != ':'
  {
    var key := event + ":" + digest;
    forall i | |event| < i < |key| ensures key[i] != ':' {
      assert key[i] == digest[i - |event| - 1];
    }
  }

  lemma {:induction false} InsertsAreNotEvents(ids: Ids, inserts: seq<(IdKey, string)>, key: IdKey)
    requires key.kind == SEEN_EVENT && forall k :: 0 <= k < |inserts| ==> inserts[k].0.kind != SEEN_EVENT
    ensures key in InsertedAll(ids, inserts) <==> key in ids
    decreases |inserts|
  {
    if inserts != [] {
      InsertsAreNotEvents(Inserted(ids, inserts[0].0, inserts[0].1), inserts[1..], key);
    }
  }

  lemma ToldPush<C>(env: Env<C>, items: seq<Prepared>, item: Prepared, event: string, digest: string)
    ensures Told(env, items + [item], event, digest) <==> Told(env, items, event, digest) || Tells(env, item, event, digest)
  {
    hide Tells;
    var all := items + [item];
    assert all[|items|] == item && forall k :: 0 <= k < |items| ==> all[k] == items[k];
  }

  /** The keys of the events after one more record has been taken. */
  lemma TakenRecalls<C>(env: Env<C>, p: Parse<C>, item: Prepared, event: string, digest: string)
    requires Plain(env) && ':' !in digest && ':' !in item.record.ref.digest
    ensures SeenKey(event, digest) in Taken(env, p, item).ids <==> SeenKey(event, digest) in p.ids || Tells(env, item, event, digest)
  {
    if !item.malformed {
      var Summary(told, session) := env.summarize(item.record.bytes);
      var ids := if told.Some? then Inserted(p.ids, SeenKey(told.value, item.record.ref.digest), "1") else p.ids;
      var normal := env.normalize(item.record, ids, if session.Some? then session else p.sessionId);
      if told.Some? {
        SeenKeyIsInjective(event, digest, told.value, item.record.ref.digest);
      }
      InsertsAreNotEvents(ids, normal.inserts, SeenKey(event, digest));
    }
  }

  lemma OneNormalized<C>(env: Env<C>, p: Parse<C>, before: seq<Prepared>, item: Prepared)
    requires Plain(env) && Recalls(env, p.ids, before) && ':' !in item.record.ref.digest
    ensures Normalized(env, p, item) == if Repeats(env, before, item) then p else Taken(env, p, item)
    ensures Recalls(env, Normalized(env, p, item).ids, before + [item])
  {
    var digest := item.record.ref.digest;
    if !item.malformed {
      var told := env.summarize(item.record.bytes).eventId;
      assert Repeats(env, before, item) <==> told.Some? && Told(env, before, told.value, digest);
    }
    assert Normalized(env, p, item) == if Repeats(env, before, item) then p else Taken(env, p, item);
    hide Normalized;
    forall event, digest' | ':' !in digest'
      ensures SeenKey(event, digest') in Normalized(env, p, item).ids <==> Told(env, before + [item], event, digest')
    {
      ToldPush(env, before, item, event, digest');
      TakenRecalls(env, p, item, event, digest');
      hide Taken, SeenKey;
      if Repeats(env, before, item) && Tells(env, item, event, digest') {
        assert digest' == digest && Told(env, before, event, digest');
      }
    }
  }

  /** Reading records is reading those that repeat none, wherever the first occurrence lies: a
      repeated event adds no chunk, no identifier, no session and no diagnostic, and every other
      record is normalised. */
  lemma {:induction false} RepeatsCountForNothing<C>(env: Env<C>, p: Parse<C>, before: seq<Prepared>, items: seq<Prepared>)
    requires Plain(env) && Recalls(env, p.ids, before) && Digested(items)
    ensures NormalizedAll(env, p, items) == TakenAll(env, p, Novel(env, before, items))
    ensures Recalls(env, NormalizedAll(env, p, items).ids, before + items)
    decreases |items|
  {
    hide *;
    if items == [] {
      NothingTaken(env, p, before);
    } else {
      var front, last := items[..|items| - 1], items[|items| - 1];
      assert items == front + [last];
      DigestedParts(front, last);
      RepeatsCountForNothing(env, p, before, front);
      OneMoreCounts(env, p, before, front, last);
    }
  }

  lemma NothingTaken<C>(env: Env<C>, p: Parse<C>, before: seq<Prepared>)
    ensures NormalizedAll(env, p, []) == p == TakenAll(env, p, Novel(env, before, [])) && before + [] == before
  {}

  lemma DigestedParts(front: seq<Prepared>, last: Prepared)
    ensures Digested(front + [last]) ==> Digested(front) && ':' !in last.record.ref.digest
  {
    assert (front + [last])[|front|] == last && forall k :: 0 <= k < |front| ==> (front + [last])[k] == front[k];
  }

  lemma OneMoreCounts<C>(env: Env<C>, p: Parse<C>, before: seq<Prepared>, front: seq<Prepared>, last: Prepared)
    requires Plain(env) && Recalls(env, NormalizedAll(env, p, front).ids, before + front) && ':' !in last.record.ref.digest
    requires NormalizedAll(env, p, front) == TakenAll(env, p, Novel(env, before, front))
    ensures NormalizedAll(env, p, front + [last]) == TakenAll(env, p, Novel(env, before, front + [last]))
    ensures Recalls(env, NormalizedAll(env, p, front + [last]).ids, before + (front + [last]))
  {
    hide *;
    var novel := Novel(env, before, front);
    NovelPush(env, before, front, last);
    NormalizedPush(env, p, front, last);
    OneNormalized(env, NormalizedAll(env, p, front), before + front, last);
    TakenPush(env, p, novel, last);
    assert novel + [] == novel && before + (front + [last]) == before + front + [last];
  }

  lemma NovelPush<C>(env: Env<C>, before: seq<Prepared>, front: seq<Prepared>, last: Prepared)
    ensures Novel(env, before, front + [last]) == Novel(env, before, front) + if Repeats(env, before + front, last) then [] else [last]
  {
    hide Repeats;
    assert (front + [last])[..|front|] == front;
  }

  lemma NormalizedPush<C>(env: Env<C>, p: Parse<C>, items: seq<Prepared>, item: Prepared)
    ensures NormalizedAll(env, p, items + [item]) == Normalized(env, NormalizedAll(env, p, items), item)
  {
    hide Normalized;
    assert (items + [item])[..|items|] == items;
  }

  lemma TakenPush<C>(env: Env<C>, p: Parse<C>, items: seq<Prepared>, item: Prepared)
    ensures TakenAll(env, p, items + [item]) == Taken(env, TakenAll(env, p, items), item)
  {
    hide Taken;
    assert (items + [item])[..|items|] == items;
  }

  lemma ScanIsDigested<C>(env: Env<C>, c: Cursor, lines: seq<seq<byte>>)
    requires Plain(env) && c.findings.prepared == []
    ensures Digested(Scan(env, c, lines).findings.prepared)
  {
    RecordsAreLines(env, c, lines);
    var prepared := Scan(env, c, lines).findings.prepared;
    hide Scan;
    forall k: nat | k < |prepared| ensures ':' !in prepared[k].record.ref.digest {
      assert prepared[k] == PreparedFor(env, c, lines, k);
    }
  }

  /** What a full read of a steady file keeps: its records as prepared, less the repeats. */
  lemma FullReadDropsRepeats<C>(env: Env<C>, ctx: Context, file: seq<byte>)
    requires Plain(env) && FullRead(env, ctx, file).Accepted?
    ensures
      var f := Scan(env, FRESH, Lines(file)).findings;
      var parse := TakenAll(env, Parse(map[], f.hint, [], f.diagnostics), Novel(env, [], f.prepared));
      var parsed := FullRead(env, ctx, file).parsed;
      && parsed.chunks == parse.chunks && parsed.ids == parse.ids && parsed.diagnostics == parse.diagnostics
      && parsed.checkpoint.state.Some? && parsed.checkpoint.state.value.sessionId == parse.sessionId
      && Recalls(env, parse.ids, f.prepared)
  {
    FullReadIs(env, ctx, file);
    var f := Scan(env, FRESH, Lines(file)).findings;
    ScanIsDigested(env, FRESH, Lines(file));
    assert [] + f.prepared == f.prepared;
    hide Plain, FullRead, Scan, Lines, Tail, NormalizedAll, TakenAll, Novel, Digested;
    RepeatsCountForNothing(env, Parse(map[], f.hint, [], f.diagnostics), [], f.prepared);
  }

  /** What a resumed read adds: the records of the suffix, less those that repeat one of the prefix
      or of the suffix before them. */
  lemma ResumedReadDropsRepeats<C>(env: Env<C>, ctx: Context, stored: Stored<C>, prefix: seq<byte>, suffix: seq<byte>)
    requires Plain(env) && Represents(env, ctx, stored, prefix)
    requires Attempted(env, ctx, Steady(prefix + suffix), Some(stored)).Accepted?
    ensures
      var before, more := Scan(env, FRESH, Lines(prefix)).findings, Scan(env, SuffixCursor(prefix), Lines(suffix)).findings;
      var first := PrefixParse(env, prefix);
      var parse := TakenAll(env, Parse(stored.ids, FirstHint(first.sessionId, more.hint), [], more.diagnostics + first.diagnostics),
                            Novel(env, before.prepared, more.prepared));
      var parsed := Attempted(env, ctx, Steady(prefix + suffix), Some(stored)).parsed;
      && parsed.append && parsed.chunks == parse.chunks && parsed.ids == parse.ids && parsed.diagnostics == parse.diagnostics
  {
    ResumedIs(env, ctx, stored, prefix, suffix);
    ScanIsDigested(env, FRESH, Lines(prefix));
    ScanIsDigested(env, SuffixCursor(prefix), Lines(suffix));
    PrefixIsRecalled(env, ctx, stored, prefix);
    var before, more := Scan(env, FRESH, Lines(prefix)).findings, Scan(env, SuffixCursor(prefix), Lines(suffix)).findings;
    var first := PrefixParse(env, prefix);
    hide Plain, Attempted, Scan, Lines, Tail, PrefixParse;
    RepeatsCountForNothing(env, Parse(stored.ids, FirstHint(first.sessionId, more.hint), [], more.diagnostics + first.diagnostics),
                           before.prepared, more.prepared);
  }

  lemma PrefixIsRecalled<C>(env: Env<C>, ctx: Context, stored: Stored<C>, prefix: seq<byte>)
    requires Plain(env) && Represents(env, ctx, stored, prefix)
    ensures Recalls(env, stored.ids, Scan(env, FRESH, Lines(prefix)).findings.prepared)
  {
    var f := Scan(env, FRESH, Lines(prefix)).findings;
    ScanIsDigested(env, FRESH, Lines(prefix));
    assert [] + f.prepared == f.prepared;
    hide Plain, Scan, Lines, Tail;
    RepeatsCountForNothing(env, Parse(map[], f.hint, [], f.diagnostics), [], f.prepared);
  }
}
