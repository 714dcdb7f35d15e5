/** Reading one session file: from scratch, or from a stored checkpoint. Records are framed and
    inspected in one pass, normalised in a second, and the bytes are verified by a third.
    What a record says is the business of `Env`: the hash, the inspection that finds ownership and
    session hints, the summary, and the normalisation step are parameters. */
module SessionReading {
  import opened Options
  import opened Bytes
  import opened SessionFraming
  import opened SessionIds

  /** A physical record's digest, byte range and line number. */
  datatype RecordRef = RecordRef(digest: string, startByte: nat, endByte: nat, line: nat)

  datatype Record = Record(ref: RecordRef, bytes: seq<byte>)

  /** Who owns the working directory a record names. */
  datatype Owner = Mine | Other | Unknown

  datatype Inspection =
    | Malformed
    | Inspected(owner: Option<Owner>, sessionId: Option<string>, metadataTruncated: bool)

  datatype Summary = Summary(eventId: Option<string>, sessionId: Option<string>)

  /** The outcome of normalising a record: identifiers to remember, chunks, and diagnostics. */
  datatype Normal<C> = Normal(inserts: seq<(IdKey, string)>, chunks: seq<C>, diagnostics: multiset<string>)

  datatype Env<!C> = Env(
    hash: seq<byte> -> string,
    inspect: (seq<byte>, bool) -> Inspection,
    summarize: seq<byte> -> Summary,
    normalize: (Record, Ids, Option<string>) -> Normal<C>)

  const CHECKPOINT_SCHEMA := 7
  const SEEN_EVENT := "seen_event"

  // ---------------------------------------------------------------- first pass: inspection

  datatype Prepared = Prepared(record: Record, malformed: bool)

  /** Diagnostics are counted per category, hence a multiset of category names. */
  datatype Findings = Findings(
    diagnostics: multiset<string>,
    sawCwd: bool,
    currentCwd: bool,
    otherCwd: bool,
    unknownCwd: bool,
    hint: Option<string>,
    prepared: seq<Prepared>)

  function NoFindings(append: bool): Findings {
    Findings(multiset{}, false, append, false, false, None, [])
  }

  /** Once a foreign working directory rules out acceptance, only metadata is captured. */
  function Acceptable(f: Findings): bool {
    !f.otherCwd && !f.unknownCwd
  }

  function Inspect<C>(env: Env<C>, f: Findings, record: Record): Findings {
    Noted(f, env.inspect(record.bytes, Acceptable(f)), record)
  }

  function Noted(f: Findings, outcome: Inspection, record: Record): Findings {
    match outcome
    case Malformed =>
      f.(diagnostics := f.diagnostics + multiset{"malformed_record"}, prepared := f.prepared + [Prepared(record, true)])
    case Inspected(owner, sessionId, truncated) =>
      f.(diagnostics := if truncated then f.diagnostics + multiset{"metadata"} else f.diagnostics,
         sawCwd := f.sawCwd || owner.Some?,
         currentCwd := f.currentCwd || owner == Some(Mine),
         otherCwd := f.otherCwd || owner == Some(Other),
         unknownCwd := f.unknownCwd || owner == Some(Unknown),
         hint := if f.hint.None? then sessionId else f.hint,
         prepared := f.prepared + [Prepared(record, false)])
  }

  /** Position of the first pass: findings so far, where the next record starts, whether it is hashed. */
  datatype Cursor = Cursor(findings: Findings, start: nat, line: nat, hashing: bool)

  function NextRecord<C>(env: Env<C>, c: Cursor, bytes: seq<byte>): Record {
    Record(RecordRef(if c.hashing then env.hash(bytes) else "", c.start, c.start + |bytes|, c.line), bytes)
  }

  function Advance<C>(env: Env<C>, c: Cursor, bytes: seq<byte>): Cursor {
    var findings := Inspect(env, c.findings, NextRecord(env, c, bytes));
    Cursor(findings, c.start + |bytes|, c.line + 1, Acceptable(findings))
  }

  function Scan<C>(env: Env<C>, c: Cursor, lines: seq<seq<byte>>): Cursor
    decreases |lines|
  {
    if lines == [] then c
    else
      var last := |lines| - 1;
      Advance(env, Scan(env, c, lines[..last]), lines[last])
  }

  lemma {:induction false} ScanAppend<C>(env: Env<C>, c: Cursor, a: seq<seq<byte>>, b: seq<seq<byte>>)
    ensures Scan(env, c, a + b) == Scan(env, Scan(env, c, a), b)
    decreases |b|
  {
    hide Advance;
    if b == [] {
      assert a + b == a;
    } else {
      var last := |b| - 1;
      ScanAppend(env, c, a, b[..last]);
      assert (a + b)[..|a + b| - 1] == a + b[..last];
    }
  }

  datatype Streamed = Streamed(cursor: Cursor, version: string, pendingTail: bool)

  /** The state of framing after `absorbed`: records completed so far, and the bytes of the next. */
  ghost predicate Framed<C>(env: Env<C>, origin: Cursor, absorbed: seq<byte>, cursor: Cursor, tail: seq<byte>) {
    cursor == Scan(env, origin, Lines(absorbed)) && tail == Tail(absorbed)
  }

  lemma FrameByte<C>(env: Env<C>, origin: Cursor, absorbed: seq<byte>, cursor: Cursor, tail: seq<byte>, b: byte)
    requires Framed(env, origin, absorbed, cursor, tail)
    ensures if b == NEWLINE then Framed(env, origin, absorbed + [b], Advance(env, cursor, tail + [b]), [])
            else Framed(env, origin, absorbed + [b], cursor, tail + [b])
  {
    PushByte(absorbed, b);
    var lines := Lines(absorbed);
    assert (lines + [tail + [NEWLINE]])[..|lines|] == lines;
  }

  /** Frames one buffer: every newline completes a record, and what follows the last one is spooled. */
  method FrameBuffer<C>(env: Env<C>, start: Cursor, before: seq<byte>, buffer: seq<byte>, ghost origin: Cursor, ghost absorbed: seq<byte>)
    returns (cursor: Cursor, spool: seq<byte>)
    requires Framed(env, origin, absorbed, start, before)
    ensures Framed(env, origin, absorbed + buffer, cursor, spool)
  {
    hide Framed;
    cursor, spool := start, before;
    var segment := 0;
    ghost var now, tail := absorbed, before;
    for index := 0 to |buffer|
      invariant segment <= index
      invariant now == absorbed + buffer[..index] && tail == spool + buffer[segment..index]
      invariant Framed(env, origin, now, cursor, tail)
    {
      FrameByte(env, origin, now, cursor, tail, buffer[index]);
      now, tail := now + [buffer[index]], tail + [buffer[index]];
      if buffer[index] == NEWLINE {
        spool := spool + buffer[segment..index + 1];
        assert spool == tail;
        cursor := Advance(env, cursor, spool);
        tail, spool, segment := [], [], index + 1;
      }
    }
    spool := spool + buffer[segment..];
    assert now == absorbed + buffer && tail == spool;
  }

  /** The streaming first pass over a suffix of the file, whatever the sizes of the reads. */
  method StreamRecords<C>(env: Env<C>, pieces: seq<seq<byte>>, start: Cursor) returns (streamed: Streamed)
    ensures var suffix := Concat(pieces);
      streamed == Streamed(Scan(env, start, Lines(suffix)), env.hash(suffix), Tail(suffix) != [])
  {
    var cursor, spool, absorbed := start, [], [];
    for i := 0 to |pieces|
      invariant absorbed == Concat(pieces[..i])
      invariant Framed(env, start, absorbed, cursor, spool)
    {
      cursor, spool := FrameBuffer(env, cursor, spool, pieces[i], start, absorbed);
      ConcatPush(pieces[..i], pieces[i]);
      assert pieces[..i + 1] == pieces[..i] + [pieces[i]];
      absorbed := absorbed + pieces[i];
    }
    assert pieces[..|pieces|] == pieces;
    streamed := Streamed(cursor, env.hash(absorbed), spool != []);
  }

  // ---------------------------------------------------------------- second pass: normalisation

  datatype Parse<C> = Parse(ids: Ids, sessionId: Option<string>, chunks: seq<C>, diagnostics: multiset<string>)

  function SeenKey(eventId: string, digest: string): IdKey {
    IdKey(SEEN_EVENT, eventId + ":" + digest)
  }

  /** A repeated event is skipped before it can change anything, the session identifier included. */
  function Normalized<C>(env: Env<C>, p: Parse<C>, item: Prepared): Parse<C> {
    if item.malformed then p.(diagnostics := p.diagnostics + multiset{"malformed_record"})
    else
      var summary := env.summarize(item.record.bytes);
      if summary.eventId.Some? && SeenKey(summary.eventId.value, item.record.ref.digest) in p.ids then p
      else
        var ids := if summary.eventId.None? then p.ids
                   else Inserted(p.ids, SeenKey(summary.eventId.value, item.record.ref.digest), "1");
        var sessionId := if summary.sessionId.Some? then summary.sessionId else p.sessionId;
        var normal := env.normalize(item.record, ids, sessionId);
        Parse(InsertedAll(ids, normal.inserts), sessionId, p.chunks + normal.chunks, p.diagnostics + normal.diagnostics)
  }

  function NormalizedAll<C>(env: Env<C>, p: Parse<C>, items: seq<Prepared>): Parse<C>
    decreases |items|
  {
    if items == [] then p
    else
      var last := |items| - 1;
      Normalized(env, NormalizedAll(env, p, items[..last]), items[last])
  }

  // ---------------------------------------------------------------- one attempt

  datatype Persisted = Persisted(
    schema: nat,
    provider: string,
    identity: string,
    prefixDigest: string,
    nextLine: nat,
    ownerKey: string,
    registryRevision: string,
    sessionId: Option<string>,
    diagnostics: multiset<string>)

  /** `state` is `None` when the stored text does not parse. */
  datatype Checkpoint = Checkpoint(offset: nat, state: Option<Persisted>)

  /** What identifies the file and its owner at the time of the read. */
  datatype Context = Context(provider: string, identity: string, ownerKey: string, registryRevision: string)

  /** What the store holds for a session source. */
  datatype Stored<C> = Stored(chunks: seq<C>, ids: Ids, checkpoint: Checkpoint)

  predicate Resumable(ctx: Context, checkpoint: Checkpoint, length: nat) {
    && checkpoint.state.Some?
    && var s := checkpoint.state.value;
    && s.schema == CHECKPOINT_SCHEMA
    && s.provider == ctx.provider
    && s.identity == ctx.identity
    && s.ownerKey == ctx.ownerKey
    && s.registryRevision == ctx.registryRevision
    && checkpoint.offset <= length
  }

  /** What one attempt observes of a file that others may be writing: its length beforehand, its
      content during the first pass and during verification, and whether its metadata held still. */
  datatype Observation = Observation(length: nat, seen: seq<byte>, verified: seq<byte>, steady: bool)

  function Steady(file: seq<byte>): Observation {
    Observation(|file|, file, file, true)
  }

  /** `ids` are the identifiers known once the updates are committed. */
  datatype Parsed<C> = Parsed(
    version: string,
    chunks: seq<C>,
    checkpoint: Checkpoint,
    append: bool,
    ids: Ids,
    diagnostics: multiset<string>,
    pending: nat)

  datatype Attempt<C> =
    | Accepted(parsed: Parsed<C>)
    | Rejected(excluded: bool, diagnostics: multiset<string>, pending: nat)
    | Unstable

  function Appends<C>(ctx: Context, o: Observation, stored: Option<Stored<C>>): bool {
    stored.Some? && Resumable(ctx, stored.value.checkpoint, o.length)
  }

  function Suffix<C>(ctx: Context, o: Observation, stored: Option<Stored<C>>): seq<byte> {
    After(o.seen, StartCursor(ctx, o, stored).start)
  }

  function StartCursor<C>(ctx: Context, o: Observation, stored: Option<Stored<C>>): Cursor {
    if Appends(ctx, o, stored)
    then Cursor(NoFindings(true), stored.value.checkpoint.offset, stored.value.checkpoint.state.value.nextLine, true)
    else Cursor(NoFindings(false), 0, 1, true)
  }

  function EndCursor<C>(env: Env<C>, ctx: Context, o: Observation, stored: Option<Stored<C>>): Cursor {
    Scan(env, StartCursor(ctx, o, stored), Lines(Suffix(ctx, o, stored)))
  }

  function Pending<C>(ctx: Context, o: Observation, stored: Option<Stored<C>>): nat {
    if Tail(Suffix(ctx, o, stored)) != [] then 1 else 0
  }

  /** Ownership: every working directory must be ours, and a full read must name one. */
  function Refusal(f: Findings, append: bool, pending: nat): Option<(bool, multiset<string>, nat)> {
    if !f.sawCwd && !append then Some((false, f.diagnostics + multiset{"ownership"}, pending))
    else if f.otherCwd && !f.currentCwd && !f.unknownCwd then Some((true, f.diagnostics + multiset{"ownership_excluded"}, pending))
    else if f.otherCwd || f.unknownCwd || !f.currentCwd then Some((false, f.diagnostics + multiset{"ownership"}, pending))
    else None
  }

  /** Where the second pass starts: an append inherits the prefix's identifiers, session and diagnostics. */
  function StartParse<C>(ctx: Context, o: Observation, stored: Option<Stored<C>>, f: Findings): Parse<C> {
    if Appends(ctx, o, stored) then
      var state := stored.value.checkpoint.state.value;
      Parse(stored.value.ids, if state.sessionId.Some? then state.sessionId else f.hint, [], f.diagnostics + state.diagnostics)
    else Parse(map[], f.hint, [], f.diagnostics)
  }

  function EndParse<C>(env: Env<C>, ctx: Context, o: Observation, stored: Option<Stored<C>>): Parse<C> {
    var f := EndCursor(env, ctx, o, stored).findings;
    NormalizedAll(env, StartParse(ctx, o, stored, f), f.prepared)
  }

  /** The digests of the verifying pass, when they agree with what was read and with the checkpoint. */
  function Verified<C>(env: Env<C>, ctx: Context, o: Observation, stored: Option<Stored<C>>): Option<FileDigests> {
    var from, end := StartCursor(ctx, o, stored), EndCursor(env, ctx, o, stored);
    var read := env.hash(Suffix(ctx, o, stored));
    var digests := DigestsOf(env.hash, o.verified, from.start, end.start);
    if digests.None? || !o.steady || digests.value.suffix != read then None
    else if !Appends(ctx, o, stored) && digests.value.version != read then None
    else if Appends(ctx, o, stored) && digests.value.previousPrefix != stored.value.checkpoint.state.value.prefixDigest then None
    else digests
  }

  function Attempted<C>(env: Env<C>, ctx: Context, o: Observation, stored: Option<Stored<C>>): Attempt<C> {
    var append := Appends(ctx, o, stored);
    var end := EndCursor(env, ctx, o, stored);
    var pending := Pending(ctx, o, stored);
    var refusal := Refusal(end.findings, append, pending);
    var digests := Verified(env, ctx, o, stored);
    if refusal.Some? then Rejected(refusal.value.0, refusal.value.1, refusal.value.2)
    else if digests.None? then Unstable
    else
      var parse := EndParse(env, ctx, o, stored);
      var state := Persisted(CHECKPOINT_SCHEMA, ctx.provider, ctx.identity, digests.value.prefix, end.line,
                             ctx.ownerKey, ctx.registryRevision, parse.sessionId, parse.diagnostics);
      Accepted(Parsed(digests.value.version, parse.chunks, Checkpoint(end.start, Some(state)), append, parse.ids,
                      parse.diagnostics, pending))
  }

  /** The second pass over the prepared records. An append looks identifiers up in the committed
      prefix as well, and `updates` holds what it adds. */
  method NormalizeRecords<C>(env: Env<C>, begin: Parse<C>, prepared: seq<Prepared>, append: bool)
    returns (parse: Parse<C>, updates: seq<(IdKey, string)>)
    requires begin.chunks == [] && (!append ==> begin.ids == map[])
    ensures parse == NormalizedAll(env, begin, prepared)
    ensures InsertedAll(begin.ids, updates) == parse.ids
  {
    hide InsertedAll;
    var ids := new DurableIdSet(append, begin.ids);
    var sessionId, chunks, diagnostics := begin.sessionId, begin.chunks, begin.diagnostics;
    for i := 0 to |prepared|
      invariant ids.Valid() && fresh(ids) && ids.committed.GetOr(map[]) == begin.ids
      invariant Parse(ids.View(), sessionId, chunks, diagnostics) == NormalizedAll(env, begin, prepared[..i])
    {
      assert prepared[..i + 1][..i] == prepared[..i];
      ghost var before := Parse(ids.View(), sessionId, chunks, diagnostics);
      sessionId, chunks, diagnostics := NormalizeRecord(env, ids, sessionId, chunks, diagnostics, prepared[i]);
      assert Parse(ids.View(), sessionId, chunks, diagnostics) == Normalized(env, before, prepared[i]);
    }
    assert prepared[..|prepared|] == prepared;
    parse := Parse(ids.View(), sessionId, chunks, diagnostics);
    updates := ids.Finish();
  }

  method NormalizeRecord<C>(env: Env<C>, ids: DurableIdSet, sessionId: Option<string>, chunks: seq<C>, diagnostics: multiset<string>, item: Prepared)
    returns (sessionId': Option<string>, chunks': seq<C>, diagnostics': multiset<string>)
    requires ids.Valid()
    modifies ids
    ensures ids.Valid()
    ensures Parse(ids.View(), sessionId', chunks', diagnostics')
         == Normalized(env, Parse(old(ids.View()), sessionId, chunks, diagnostics), item)
  {
    hide InsertedAll;
    sessionId', chunks', diagnostics' := sessionId, chunks, diagnostics;
    if item.malformed {
      diagnostics' := diagnostics + multiset{"malformed_record"};
      return;
    }
    var summary := env.summarize(item.record.bytes);
    if summary.eventId.Some? {
      var isNew := ids.Insert(SeenKey(summary.eventId.value, item.record.ref.digest), "1");
      if !isNew {
        return;
      }
    }
    if summary.sessionId.Some? {
      sessionId' := summary.sessionId;
    }
    var normal := env.normalize(item.record, ids.View(), sessionId');
    ids.InsertAll(normal.inserts);
    chunks' := chunks + normal.chunks;
    diagnostics' := diagnostics + normal.diagnostics;
  }

  /** The attempt as the program makes it. `first` and `second` are the reads of its two passes. */
  method ReadFile<C>(env: Env<C>, ctx: Context, length: nat, first: seq<seq<byte>>, second: seq<seq<byte>>, steady: bool,
                     stored: Option<Stored<C>>, ghost seen: seq<byte>)
    returns (attempt: Attempt<C>, updates: seq<(IdKey, string)>)
    requires forall r :: r in second ==> r != []
    requires Concat(first) == After(seen, StartCursor(ctx, Observation(length, seen, [], steady), stored).start)
    ensures attempt == Attempted(env, ctx, Observation(length, seen, Concat(second), steady), stored)
    ensures attempt.Accepted? ==>
              InsertedAll(if attempt.parsed.append then stored.value.ids else map[], updates) == attempt.parsed.ids
  {
    hide Scan, NormalizedAll, InsertedAll, Lines, Tail;
    ghost var o := Observation(length, seen, Concat(second), steady);
    updates := [];
    var append, from := false, Cursor(NoFindings(false), 0, 1, true);
    if stored.Some? && Resumable(ctx, stored.value.checkpoint, length) {
      append := true;
      from := Cursor(NoFindings(true), stored.value.checkpoint.offset, stored.value.checkpoint.state.value.nextLine, true);
    }
    assert append == Appends(ctx, o, stored) && from == StartCursor(ctx, o, stored);
    var stream := StreamRecords(env, first, from);
    var f := stream.cursor.findings;
    var pending := if stream.pendingTail then 1 else 0;
    var refusal := Refusal(f, append, pending);
    if refusal.Some? {
      return Rejected(refusal.value.0, refusal.value.1, refusal.value.2), [];
    }
    var begin := StartParse(ctx, Observation(length, [], [], steady), stored, f);
    var parse, added := NormalizeRecords(env, begin, f.prepared, append);
    var digests, _ := DigestFile(env.hash, second, from.start, stream.cursor.start);
    ScanMovesOn(env, from, Lines(Concat(first)));
    if || digests.None?
       || !steady
       || digests.value.suffix != stream.version
       || (!append && digests.value.version != stream.version)
       || (append && digests.value.previousPrefix != stored.value.checkpoint.state.value.prefixDigest) {
      return Unstable, [];
    }
    updates := added;
    var state := Persisted(CHECKPOINT_SCHEMA, ctx.provider, ctx.identity, digests.value.prefix, stream.cursor.line,
                           ctx.ownerKey, ctx.registryRevision, parse.sessionId, parse.diagnostics);
    attempt := Accepted(Parsed(digests.value.version, parse.chunks, Checkpoint(stream.cursor.start, Some(state)), append, parse.ids,
                               parse.diagnostics, pending));
  }

  /** The first pass moves by exactly the bytes and lines it consumes. */
  lemma {:induction false} ScanMovesOn<C>(env: Env<C>, c: Cursor, lines: seq<seq<byte>>)
    ensures Scan(env, c, lines).start == c.start + |Concat(lines)|
    ensures Scan(env, c, lines).line == c.line + |lines|
    decreases |lines|
  {
    if lines != [] {
      ScanMovesOn(env, c, lines[..|lines| - 1]);
    }
  }

  // ---------------------------------------------------------------- retries

  /** One try: an attempt that ran to its end, or an error. `Read(Unstable)` is the error of a file
      that changed while it was read. */
  datatype Tried<C> = Read(attempt: Attempt<C>) | Cancelled | FinalizeFailed | Failure

  const MAX_UNSTABLE := 2

  /** The retry policy as a function of what each try would bring: `tries(k, resuming)` is the
      `k`-th. Yields the outcome and the number of the try it came from. */
  function Retried<C>(tries: (nat, bool) -> Tried<C>, k: nat, resuming: bool, unstable: nat): (Tried<C>, nat)
    decreases resuming, MAX_UNSTABLE - unstable
  {
    var tried := tries(k, resuming);
    if tried.Cancelled? || tried.FinalizeFailed? || (tried.Read? && tried.attempt.Accepted?) then (tried, k)
    else if resuming then Retried(tries, k + 1, false, unstable)
    else if tried.Read? && tried.attempt.Unstable? && unstable < MAX_UNSTABLE then Retried(tries, k + 1, false, unstable + 1)
    else (tried, k)
  }

  method ReadFileWithRetries<C>(tries: (nat, bool) -> Tried<C>, hasCheckpoint: bool) returns (outcome: Tried<C>, k: nat)
    ensures (outcome, k) == Retried(tries, 0, hasCheckpoint, 0)
  {
    var resuming, unstable := hasCheckpoint, 0;
    k := 0;
    while true
      invariant unstable <= MAX_UNSTABLE
      invariant Retried(tries, k, resuming, unstable) == Retried(tries, 0, hasCheckpoint, 0)
      decreases resuming, MAX_UNSTABLE - unstable
    {
      outcome := tries(k, resuming);
      match outcome {
        case Read(attempt) =>
          if attempt.Rejected? && resuming {
            resuming := false;
          } else if !attempt.Unstable? {
            return;
          } else if resuming {
            resuming := false;
          } else if unstable < MAX_UNSTABLE {
            unstable := unstable + 1;
          } else {
            return;
          }
        case Cancelled => return;
        case FinalizeFailed => return;
        case Failure =>
          if !resuming {
            return;
          }
          resuming := false;
      }
      k := k + 1;
    }
  }

  /** The outcome is that of the last try alone, of at most four. A rejection or failure of a
      resumed try is never returned: it comes from a full read. An unstable outcome means that
      three full reads in a row were unstable. */
  lemma RetriesAreAuthoritative<C>(tries: (nat, bool) -> Tried<C>, hasCheckpoint: bool)
    ensures
      var (outcome, k) := Retried(tries, 0, hasCheckpoint, 0);
      && k <= 3
      && (outcome == tries(k, false) || (hasCheckpoint && k == 0 && outcome == tries(0, true)))
      && (outcome == tries(k, false)
          || outcome.Cancelled? || outcome.FinalizeFailed? || (outcome.Read? && outcome.attempt.Accepted?))
      && (outcome == Read(Unstable) ==>
            k >= 2 && tries(k, false) == tries(k - 1, false) == tries(k - 2, false) == Read(Unstable))
  {
    RetriedFull(tries, 0, 0);
    RetriedFull(tries, 1, 0);
  }

  lemma {:induction false} RetriedFull<C>(tries: (nat, bool) -> Tried<C>, from: nat, unstable: nat)
    requires unstable <= MAX_UNSTABLE
    ensures
      var (outcome, k) := Retried(tries, from, false, unstable);
      && from <= k <= from + MAX_UNSTABLE - unstable && outcome == tries(k, false)
      && (forall i :: from <= i < k ==> tries(i, false) == Read(Unstable))
      && (outcome == Read(Unstable) ==> k == from + MAX_UNSTABLE - unstable)
    decreases MAX_UNSTABLE - unstable
  {
    var tried := tries(from, false);
    if tried == Read(Unstable) && unstable < MAX_UNSTABLE {
      RetriedFull(tries, from + 1, unstable + 1);
    }
  }
}
