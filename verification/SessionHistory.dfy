/** What incremental session reading promises: over any history of a file, the store holds what a
    full read of its current content would produce. */
module SessionHistory {
  import opened Options
  import opened Bytes
  import opened Collections
  import opened SessionFraming
  import opened SessionIds
  import opened SessionReading

  function FullRead<C>(env: Env<C>, ctx: Context, file: seq<byte>): Attempt<C> {
    Attempted(env, ctx, Steady(file), None)
  }

  /** Committing a parsed read: an append extends the source, anything else replaces it. */
  function Commit<C>(stored: Option<Stored<C>>, parsed: Parsed<C>): Stored<C> {
    Stored(if parsed.append && stored.Some? then stored.value.chunks + parsed.chunks else parsed.chunks, parsed.ids, parsed.checkpoint)
  }

  // ---------------------------------------------------------------- the first pass can be resumed

  function FirstHint(a: Option<string>, b: Option<string>): Option<string> {
    if a.Some? then a else b
  }

  function Joined(base: Findings, more: Findings): Findings {
    Findings(base.diagnostics + more.diagnostics, base.sawCwd || more.sawCwd, base.currentCwd || more.currentCwd,
             base.otherCwd || more.otherCwd, base.unknownCwd || more.unknownCwd,
             FirstHint(base.hint, more.hint), base.prepared + more.prepared)
  }

  /** Inspecting a suffix after an acceptable prefix finds what inspecting it alone finds, joined to
      what the prefix held. */
  lemma {:induction false} ScanJoins<C>(env: Env<C>, base: Findings, start: nat, line: nat, lines: seq<seq<byte>>)
    requires Acceptable(base) && base.currentCwd
    ensures var alone := Scan(env, Cursor(NoFindings(true), start, line, true), lines);
      Scan(env, Cursor(base, start, line, true), lines) == alone.(findings := Joined(base, alone.findings))
    decreases |lines|
  {
    if lines == [] {
      assert Joined(base, NoFindings(true)) == base;
    } else {
      var last := |lines| - 1;
      ScanJoins(env, base, start, line, lines[..last]);
      var alone := Scan(env, Cursor(NoFindings(true), start, line, true), lines[..last]);
      var both := alone.(findings := Joined(base, alone.findings));
      assert NextRecord(env, alone, lines[last]) == NextRecord(env, both, lines[last]);
      InspectJoins(env, base, alone.findings, NextRecord(env, alone, lines[last]));
    }
  }

  lemma InspectJoins<C>(env: Env<C>, base: Findings, more: Findings, record: Record)
    requires Acceptable(base)
    ensures Inspect(env, Joined(base, more), record) == Joined(base, Inspect(env, more, record))
  {
    assert Acceptable(Joined(base, more)) == Acceptable(more);
    NotedJoins(base, more, env.inspect(record.bytes, Acceptable(more)), record);
    hide Noted, Joined;
  }

  lemma NotedJoins(base: Findings, more: Findings, outcome: Inspection, record: Record)
    ensures Noted(Joined(base, more), outcome, record) == Joined(base, Noted(more, outcome, record))
  {
    var item := Prepared(record, outcome.Malformed?);
    var l, r := Noted(Joined(base, more), outcome, record), Joined(base, Noted(more, outcome, record));
    Associates(base.prepared, more.prepared, [item]);
    BagAssociates(base.diagnostics, more.diagnostics, if outcome.Malformed? then multiset{"malformed_record"} else multiset{"metadata"});
    assert l.prepared == r.prepared;
    assert l.diagnostics == r.diagnostics;
    assert l.hint == r.hint;
  }

  /** Findings are final once they rule out acceptance, so an accepted prefix was hashed throughout. */
  lemma {:induction false} AcceptableThroughout<C>(env: Env<C>, c: Cursor, lines: seq<seq<byte>>)
    requires c.hashing == Acceptable(c.findings)
    ensures Scan(env, c, lines).hashing == Acceptable(Scan(env, c, lines).findings)
    decreases |lines|
  {
    if lines != [] {
      AcceptableThroughout(env, c, lines[..|lines| - 1]);
    }
  }

  // ---------------------------------------------------------------- the second pass can be resumed

  lemma {:induction false} NormalizedAppend<C>(env: Env<C>, p: Parse<C>, a: seq<Prepared>, b: seq<Prepared>)
    ensures NormalizedAll(env, p, a + b) == NormalizedAll(env, NormalizedAll(env, p, a), b)
    decreases |b|
  {
    if b == [] {
      assert a + b == a;
    } else {
      NormalizedAppend(env, p, a, b[..|b| - 1]);
      assert (a + b)[..|a + b| - 1] == a + b[..|b| - 1];
    }
  }

  /** Chunks and diagnostics already gathered do not influence what follows. */
  lemma {:induction false} NormalizedShifts<C>(env: Env<C>, ids: Ids, sessionId: Option<string>,
                                               chunks: seq<C>, diagnostics: multiset<string>, items: seq<Prepared>)
    ensures var alone := NormalizedAll(env, Parse(ids, sessionId, [], multiset{}), items);
      NormalizedAll(env, Parse(ids, sessionId, chunks, diagnostics), items)
      == alone.(chunks := chunks + alone.chunks, diagnostics := diagnostics + alone.diagnostics)
    decreases |items|
  {
    if items != [] {
      var last := |items| - 1;
      NormalizedShifts(env, ids, sessionId, chunks, diagnostics, items[..last]);
      var alone := NormalizedAll(env, Parse(ids, sessionId, [], multiset{}), items[..last]);
      NormalizedShiftsOne(env, alone, chunks, diagnostics, items[last]);
    }
  }

  lemma NormalizedShiftsOne<C>(env: Env<C>, p: Parse<C>, chunks: seq<C>, diagnostics: multiset<string>, item: Prepared)
    ensures var q := Normalized(env, p, item);
      Normalized(env, p.(chunks := chunks + p.chunks, diagnostics := diagnostics + p.diagnostics), item)
      == q.(chunks := chunks + q.chunks, diagnostics := diagnostics + q.diagnostics)
  {
    assert forall more: seq<C> :: chunks + (p.chunks + more) == (chunks + p.chunks) + more;
  }

  lemma {:induction false} SessionStaysKnown<C>(env: Env<C>, p: Parse<C>, items: seq<Prepared>)
    requires p.sessionId.Some?
    ensures NormalizedAll(env, p, items).sessionId.Some?
    decreases |items|
  {
    if items != [] {
      SessionStaysKnown(env, p, items[..|items| - 1]);
    }
  }

  // ---------------------------------------------------------------- where the session matters

  function FirstWellFormed(items: seq<Prepared>): Option<Prepared> {
    if items == [] then None
    else
      var front, last := FirstWellFormed(items[..|items| - 1]), items[|items| - 1];
      if front.Some? then front else if last.malformed then None else Some(last)
  }

  /** The first well-formed record, if there is one, names its session itself. */
  predicate OpensWithSession<C>(env: Env<C>, items: seq<Prepared>) {
    var first := FirstWellFormed(items);
    first.Some? ==> env.summarize(first.value.record.bytes).sessionId.Some?
  }

  lemma FirstWellFormedPush(items: seq<Prepared>, item: Prepared)
    ensures FirstWellFormed(items + [item]) ==
            if FirstWellFormed(items).Some? then FirstWellFormed(items) else if item.malformed then None else Some(item)
  {
    assert (items + [item])[..|items|] == items;
  }

  lemma {:induction false} FirstOfAppend(a: seq<Prepared>, b: seq<Prepared>)
    requires FirstWellFormed(a).Some?
    ensures FirstWellFormed(a + b) == FirstWellFormed(a)
    decreases |b|
  {
    hide FirstWellFormed;
    if b == [] {
      assert a + b == a;
    } else {
      var front, last := b[..|b| - 1], b[|b| - 1];
      FirstOfAppend(a, front);
      FirstWellFormedPush(a + front, last);
      assert a + b == a + front + [last];
    }
  }

  /** Before the first well-formed record there is nothing but diagnostics. */
  lemma {:induction false} NothingWellFormed<C>(env: Env<C>, p: Parse<C>, items: seq<Prepared>)
    requires FirstWellFormed(items).None?
    ensures NormalizedAll(env, p, items) == p.(diagnostics := NormalizedAll(env, p, items).diagnostics)
    decreases |items|
  {
    if items != [] {
      NothingWellFormed(env, p, items[..|items| - 1]);
    }
  }

  /** If the first well-formed record names its session, it does not matter which one was inherited. */
  lemma {:induction false} InheritedSessionIsReplaced<C>(env: Env<C>, s: Option<string>, diagnostics: multiset<string>, items: seq<Prepared>)
    requires OpensWithSession(env, items)
    ensures
      var without := NormalizedAll(env, Parse(map[], None, [], diagnostics), items);
      NormalizedAll(env, Parse(map[], s, [], diagnostics), items) == without.(sessionId := FirstHint(without.sessionId, s))
    decreases |items|
  {
    if items != [] {
      var front := items[..|items| - 1];
      InheritedSessionIsReplaced(env, s, diagnostics, front);
      if FirstWellFormed(front).Some? {
        SessionIsNamed(env, Parse(map[], None, [], diagnostics), front);
      } else {
        NothingWellFormed(env, Parse(map[], None, [], diagnostics), front);
        NothingWellFormed(env, Parse(map[], s, [], diagnostics), front);
      }
    }
  }

  lemma {:induction false} SessionIsNamed<C>(env: Env<C>, p: Parse<C>, items: seq<Prepared>)
    requires OpensWithSession(env, items) && FirstWellFormed(items).Some? && p.ids == map[]
    ensures NormalizedAll(env, p, items).sessionId.Some?
    decreases |items|
  {
    var front := items[..|items| - 1];
    if FirstWellFormed(front).Some? {
      SessionIsNamed(env, p, front);
    } else {
      NothingWellFormed(env, p, front);
    }
  }

  /** A normalisation whose only chunk per record says which session the record was taken to belong to. */
  ghost predicate Echoes(env: Env<Option<string>>) {
    forall record, ids, s :: env.normalize(record, ids, s) == Normal([], [s], multiset{})
  }

  lemma {:induction false} EchoOfFirst(env: Env<Option<string>>, p: Parse<Option<string>>, items: seq<Prepared>)
    requires Echoes(env) && p.ids == map[] && p.chunks == []
    requires FirstWellFormed(items).Some? && env.summarize(FirstWellFormed(items).value.record.bytes).sessionId.None?
    ensures var chunks := NormalizedAll(env, p, items).chunks; chunks != [] && chunks[0] == p.sessionId
    decreases |items|
  {
    var front := items[..|items| - 1];
    if FirstWellFormed(front).Some? {
      EchoOfFirst(env, p, front);
    } else {
      NothingWellFormed(env, p, front);
    }
  }

  // ---------------------------------------------------------------- what a checkpoint stands for

  const FRESH := Cursor(NoFindings(false), 0, 1, true)

  function PrefixParse<C>(env: Env<C>, prefix: seq<byte>): Parse<C> {
    var f := Scan(env, FRESH, Lines(prefix)).findings;
    NormalizedAll(env, Parse(map[], f.hint, [], f.diagnostics), f.prepared)
  }

  /** The stored source is what an accepted full read of `prefix` makes of it. */
  ghost predicate Represents<C>(env: Env<C>, ctx: Context, stored: Stored<C>, prefix: seq<byte>) {
    var base := Scan(env, FRESH, Lines(prefix));
    var parse := PrefixParse(env, prefix);
    && Tail(prefix) == []
    && Acceptable(base.findings) && base.findings.sawCwd && base.findings.currentCwd
    && stored == Stored(parse.chunks, parse.ids, Checkpoint(|prefix|, Some(
         Persisted(CHECKPOINT_SCHEMA, ctx.provider, ctx.identity, env.hash(prefix), 1 + |Lines(prefix)|,
                   ctx.ownerKey, ctx.registryRevision, parse.sessionId, parse.diagnostics))))
  }

  /** How an attempt on a steady file ends, given its two passes. */
  function Concluded<C>(env: Env<C>, ctx: Context, file: seq<byte>, end: Cursor, parse: Parse<C>, append: bool): Attempt<C> {
    var pending := if Tail(file) != [] then 1 else 0;
    var refusal := Refusal(end.findings, append, pending);
    if refusal.Some? then Rejected(refusal.value.0, refusal.value.1, refusal.value.2)
    else
      Accepted(Parsed(env.hash(file), parse.chunks, Checkpoint(|Complete(file)|, Some(
        Persisted(CHECKPOINT_SCHEMA, ctx.provider, ctx.identity, env.hash(Complete(file)), end.line,
                  ctx.ownerKey, ctx.registryRevision, parse.sessionId, parse.diagnostics))),
        append, parse.ids, parse.diagnostics, pending))
  }

  lemma FullReadVerified<C>(env: Env<C>, ctx: Context, file: seq<byte>)
    ensures
      var o := Steady(file);
      && StartCursor<C>(ctx, o, None) == FRESH && Suffix<C>(ctx, o, None) == file
      && EndCursor(env, ctx, o, None) == Scan(env, FRESH, Lines(file))
      && Scan(env, FRESH, Lines(file)).start == |Complete(file)|
      && Verified(env, ctx, o, None)
         == Some(FileDigests(env.hash(file), env.hash(file), env.hash(Complete(file)), env.hash(file[..0])))
  {
    hide Scan;
    assert After(file, 0) == file;
    ScanMovesOn(env, FRESH, Lines(file));
    CompletePart(file);
  }

  lemma FullReadIs<C>(env: Env<C>, ctx: Context, file: seq<byte>)
    ensures FullRead(env, ctx, file) == Concluded(env, ctx, file, Scan(env, FRESH, Lines(file)), PrefixParse(env, file), false)
    ensures Lines(Complete(file)) == Lines(file) && Tail(Complete(file)) == []
    ensures Scan(env, FRESH, Lines(file)).line == 1 + |Lines(file)|
  {
    hide Scan, NormalizedAll, Lines, Tail, Verified;
    ScanMovesOn(env, FRESH, Lines(file));
    CompletePart(file);
    FullReadVerified(env, ctx, file);
    AttemptFrom(env, ctx, Steady(file), None, Scan(env, FRESH, Lines(file)), PrefixParse(env, file));
  }

  lemma FullReadRepresents<C>(env: Env<C>, ctx: Context, file: seq<byte>)
    requires FullRead(env, ctx, file).Accepted?
    ensures Represents(env, ctx, Commit(None, FullRead(env, ctx, file).parsed), Complete(file))
  {
    FullReadIs(env, ctx, file);
  }

  /** The part of a file that ends with its last newline. */
  function Complete(file: seq<byte>): seq<byte> {
    if |Tail(file)| <= |file| then file[..|file| - |Tail(file)|] else []
  }

  // ---------------------------------------------------------------- resuming

  function SuffixCursor(prefix: seq<byte>): Cursor {
    Cursor(NoFindings(true), |prefix|, 1 + |Lines(prefix)|, true)
  }

  lemma ResumedScan<C>(env: Env<C>, prefix: seq<byte>, suffix: seq<byte>)
    requires Tail(prefix) == []
    requires var base := Scan(env, FRESH, Lines(prefix)).findings; Acceptable(base) && base.currentCwd
    ensures
      var base := Scan(env, FRESH, Lines(prefix)).findings;
      var alone := Scan(env, SuffixCursor(prefix), Lines(suffix));
      && Scan(env, FRESH, Lines(prefix + suffix)) == alone.(findings := Joined(base, alone.findings))
      && alone.start == |prefix| + |suffix| - |Tail(suffix)|
      && |Tail(suffix)| <= |suffix|
      && Tail(prefix + suffix) == Tail(suffix)
  {
    LinesOfAppend(prefix, suffix);
    ScanAppend(env, FRESH, Lines(prefix), Lines(suffix));
    ScanMovesOn(env, FRESH, Lines(prefix));
    CompletePart(prefix);
    AcceptableThroughout(env, FRESH, Lines(prefix));
    var base := Scan(env, FRESH, Lines(prefix));
    ScanJoins(env, base.findings, base.start, base.line, Lines(suffix));
    ScanMovesOn(env, SuffixCursor(prefix), Lines(suffix));
    CompletePart(suffix);
  }

  /** What a resumed pass inherits does for the prefix what knowing the whole would have done. */
  predicate Settled<C>(env: Env<C>, base: Findings, more: Findings) {
    base.hint.Some? || more.hint.None? || OpensWithSession(env, base.prepared)
  }

  lemma ResumedParse<C>(env: Env<C>, base: Findings, more: Findings)
    requires Settled(env, base, more)
    ensures
      var joined := Joined(base, more);
      var whole := NormalizedAll(env, Parse(map[], joined.hint, [], joined.diagnostics), joined.prepared);
      var first := NormalizedAll(env, Parse(map[], base.hint, [], base.diagnostics), base.prepared);
      var second := NormalizedAll(env, Parse(first.ids, FirstHint(first.sessionId, more.hint), [], more.diagnostics + first.diagnostics), more.prepared);
      whole == second.(chunks := first.chunks + second.chunks)
  {
    hide Normalized, NormalizedAll, OpensWithSession;
    var joined := Joined(base, more);
    var first := NormalizedAll(env, Parse(map[], base.hint, [], base.diagnostics), base.prepared);
    NormalizedAppend(env, Parse(map[], joined.hint, [], joined.diagnostics), base.prepared, more.prepared);
    FirstParse(env, base, more);
    NormalizedShifts(env, map[], joined.hint, [], base.diagnostics, base.prepared);
    NormalizedShifts(env, map[], joined.hint, [], joined.diagnostics, base.prepared);
    var middle := NormalizedAll(env, Parse(map[], joined.hint, [], joined.diagnostics), base.prepared);
    NormalizedShifts(env, first.ids, middle.sessionId, middle.chunks, middle.diagnostics, more.prepared);
    NormalizedShifts(env, first.ids, middle.sessionId, [], more.diagnostics + first.diagnostics, more.prepared);
  }

  lemma FirstParse<C>(env: Env<C>, base: Findings, more: Findings)
    requires Settled(env, base, more)
    ensures
      var first := NormalizedAll(env, Parse(map[], base.hint, [], base.diagnostics), base.prepared);
      NormalizedAll(env, Parse(map[], FirstHint(base.hint, more.hint), [], base.diagnostics), base.prepared)
      == first.(sessionId := FirstHint(first.sessionId, more.hint))
  {
    hide NormalizedAll, OpensWithSession;
    if base.hint.Some? {
      SessionStaysKnown(env, Parse(map[], base.hint, [], base.diagnostics), base.prepared);
    } else if more.hint.Some? {
      InheritedSessionIsReplaced(env, more.hint, base.diagnostics, base.prepared);
    }
  }

  function ResumedParseOf<C>(env: Env<C>, stored: Stored<C>, sessionId: Option<string>, diagnostics: multiset<string>, more: Findings): Parse<C> {
    NormalizedAll(env, Parse(stored.ids, FirstHint(sessionId, more.hint), [], more.diagnostics + diagnostics), more.prepared)
  }

  lemma ResumedCursors<C>(env: Env<C>, ctx: Context, stored: Stored<C>, prefix: seq<byte>, suffix: seq<byte>)
    requires Represents(env, ctx, stored, prefix)
    ensures
      var o := Steady(prefix + suffix);
      var s := Some(stored);
      && Appends(ctx, o, s)
      && Suffix(ctx, o, s) == suffix
      && EndCursor(env, ctx, o, s) == Scan(env, SuffixCursor(prefix), Lines(suffix))
      && StartCursor(ctx, o, s).start == |prefix|
  {
    assert After(prefix + suffix, |prefix|) == suffix;
  }

  lemma ResumedVerified<C>(env: Env<C>, ctx: Context, stored: Stored<C>, prefix: seq<byte>, suffix: seq<byte>)
    requires Represents(env, ctx, stored, prefix)
    ensures
      var file := prefix + suffix;
      Verified(env, ctx, Steady(file), Some(stored))
      == Some(FileDigests(env.hash(file), env.hash(suffix), env.hash(Complete(file)), env.hash(prefix)))
  {
    hide Scan, Lines, Tail, NormalizedAll;
    var file := prefix + suffix;
    ResumedCursors(env, ctx, stored, prefix, suffix);
    ResumedScan(env, prefix, suffix);
    assert After(file, |prefix|) == suffix && file[..|prefix|] == prefix;
    var end := EndCursor(env, ctx, Steady(file), Some(stored));
    assert file[..end.start] == Complete(file);
  }

  lemma ResumedIs<C>(env: Env<C>, ctx: Context, stored: Stored<C>, prefix: seq<byte>, suffix: seq<byte>)
    requires Represents(env, ctx, stored, prefix)
    ensures
      var file := prefix + suffix;
      var alone := Scan(env, SuffixCursor(prefix), Lines(suffix));
      var first := PrefixParse(env, prefix);
      Attempted(env, ctx, Steady(file), Some(stored))
      == Concluded(env, ctx, file, alone, ResumedParseOf(env, stored, first.sessionId, first.diagnostics, alone.findings), true)
  {
    var file := prefix + suffix;
    var alone, first := Scan(env, SuffixCursor(prefix), Lines(suffix)), PrefixParse(env, prefix);
    ResumedCursors(env, ctx, stored, prefix, suffix);
    ResumedVerified(env, ctx, stored, prefix, suffix);
    assert alone.start == |Complete(file)| && Tail(suffix) == Tail(file) by {
      ResumedScan(env, prefix, suffix);
    }
    ResumedStart(env, ctx, stored, prefix, suffix, alone.findings);
    AttemptFrom(env, ctx, Steady(file), Some(stored), alone,
                ResumedParseOf(env, stored, first.sessionId, first.diagnostics, alone.findings));
  }

  lemma ResumedStart<C>(env: Env<C>, ctx: Context, stored: Stored<C>, prefix: seq<byte>, suffix: seq<byte>, more: Findings)
    requires Represents(env, ctx, stored, prefix)
    ensures var first := PrefixParse(env, prefix);
      StartParse(ctx, Steady(prefix + suffix), Some(stored), more)
      == Parse(stored.ids, FirstHint(first.sessionId, more.hint), [], more.diagnostics + first.diagnostics)
  {}

  lemma AttemptFrom<C>(env: Env<C>, ctx: Context, o: Observation, stored: Option<Stored<C>>, end: Cursor, parse: Parse<C>)
    requires EndCursor(env, ctx, o, stored) == end && EndParse(env, ctx, o, stored) == parse
    requires Verified(env, ctx, o, stored).Some?
    requires Verified(env, ctx, o, stored).value.version == env.hash(o.seen)
    requires Verified(env, ctx, o, stored).value.prefix == env.hash(Complete(o.seen))
    requires end.start == |Complete(o.seen)| && Tail(Suffix(ctx, o, stored)) == Tail(o.seen)
    ensures Attempted(env, ctx, o, stored) == Concluded(env, ctx, o.seen, end, parse, Appends(ctx, o, stored))
  {}

  /** The two ways to conclude agree once their passes do. */
  lemma ConcludedAlike<C>(env: Env<C>, ctx: Context, file: seq<byte>, base: Findings, alone: Cursor, first: Parse<C>, second: Parse<C>)
    requires Acceptable(base) && base.sawCwd && base.currentCwd && alone.findings.currentCwd
    ensures
      var full := Concluded(env, ctx, file, alone.(findings := Joined(base, alone.findings)), second.(chunks := first.chunks + second.chunks), false);
      var resumed := Concluded(env, ctx, file, alone, second, true);
      && (resumed.Accepted? <==> full.Accepted?)
      && (resumed.Accepted? ==>
            full == Accepted(resumed.parsed.(chunks := first.chunks + resumed.parsed.chunks, append := false)))
  {}

  lemma {:induction false} CurrentStays<C>(env: Env<C>, c: Cursor, lines: seq<seq<byte>>)
    requires c.findings.currentCwd
    ensures Scan(env, c, lines).findings.currentCwd
    decreases |lines|
  {
    if lines != [] {
      CurrentStays(env, c, lines[..|lines| - 1]);
    }
  }

  /** By the checkpoint the session has been named, or it is not named after it either, or no record
      before it relies on it. */
  predicate SessionSettled<C>(env: Env<C>, prefix: seq<byte>, suffix: seq<byte>) {
    Settled(env, Scan(env, FRESH, Lines(prefix)).findings, Scan(env, SuffixCursor(prefix), Lines(suffix)).findings)
  }

  /** Append equals rebuild, for a file that still begins with the checkpoint's prefix. Resuming is
      accepted exactly when a full read is, and committing it leaves the same chunks and references,
      identifiers, checkpoint, version and diagnostics as the full read. */
  lemma AppendEqualsRebuild<C>(env: Env<C>, ctx: Context, stored: Stored<C>, prefix: seq<byte>, suffix: seq<byte>)
    requires Represents(env, ctx, stored, prefix) && SessionSettled(env, prefix, suffix)
    ensures
      var resumed, full := Attempted(env, ctx, Steady(prefix + suffix), Some(stored)), FullRead(env, ctx, prefix + suffix);
      && (resumed.Accepted? <==> full.Accepted?)
      && (resumed.Accepted? ==>
            && resumed.parsed.append
            && Commit(Some(stored), resumed.parsed) == Commit(None, full.parsed)
            && resumed.parsed.version == full.parsed.version
            && resumed.parsed.diagnostics == full.parsed.diagnostics
            && resumed.parsed.pending == full.parsed.pending)
  {
    ResumedIs(env, ctx, stored, prefix, suffix);
    FullReadIs(env, ctx, prefix + suffix);
    ResumedScan(env, prefix, suffix);
    var base, alone := Scan(env, FRESH, Lines(prefix)).findings, Scan(env, SuffixCursor(prefix), Lines(suffix));
    ResumedParse(env, base, alone.findings);
    CurrentStays(env, SuffixCursor(prefix), Lines(suffix));
    var first := PrefixParse(env, prefix);
    ConcludedAlike(env, ctx, prefix + suffix, base, alone, first,
                   ResumedParseOf(env, stored, first.sessionId, first.diagnostics, alone.findings));
  }

  /** A file that no longer begins with the prefix is never resumed into: either it has become too
      short, and the attempt is a full read, or verification finds another digest. */
  lemma ChangedPrefixIsNotResumed<C>(env: Env<C>, ctx: Context, stored: Stored<C>, prefix: seq<byte>, file: seq<byte>)
    requires Represents(env, ctx, stored, prefix)
    requires |prefix| <= |file| ==> env.hash(file[..|prefix|]) != env.hash(prefix)
    ensures var resumed := Attempted(env, ctx, Steady(file), Some(stored));
      if |prefix| <= |file| then !resumed.Accepted? else resumed == FullRead(env, ctx, file)
  {
    hide Scan, NormalizedAll, Lines, Tail, Concat;
  }

  /** Whether the file is accepted does not depend on where reading begins. */
  lemma AcceptanceAgrees<C>(env: Env<C>, ctx: Context, stored: Stored<C>, prefix: seq<byte>, suffix: seq<byte>)
    requires Represents(env, ctx, stored, prefix)
    ensures
      var resumed, full := Attempted(env, ctx, Steady(prefix + suffix), Some(stored)), FullRead(env, ctx, prefix + suffix);
      && (resumed.Accepted? <==> full.Accepted?)
      && (resumed.Accepted? ==> resumed.parsed.append && !full.parsed.append)
  {
    hide NormalizedAll;
    ResumedIs(env, ctx, stored, prefix, suffix);
    FullReadIs(env, ctx, prefix + suffix);
    ResumedScan(env, prefix, suffix);
    CurrentStays(env, SuffixCursor(prefix), Lines(suffix));
  }

  /** The condition on sessions is exact. Whatever inspection and summaries say, a normalisation that
      tells sessions apart makes append equal to rebuild just when it holds. */
  lemma AppendEqualsRebuildExactlyWhen(env: Env<Option<string>>, ctx: Context, stored: Stored<Option<string>>,
                                       prefix: seq<byte>, suffix: seq<byte>)
    requires Represents(env, ctx, stored, prefix) && Echoes(env)
    requires FullRead(env, ctx, prefix + suffix).Accepted?
    ensures
      var resumed, full := Attempted(env, ctx, Steady(prefix + suffix), Some(stored)), FullRead(env, ctx, prefix + suffix);
      && resumed.Accepted?
      && (Commit(Some(stored), resumed.parsed) == Commit(None, full.parsed) <==> SessionSettled(env, prefix, suffix))
  {
    hide Attempted, FullRead, SessionSettled, Represents, Echoes;
    AcceptanceAgrees(env, ctx, stored, prefix, suffix);
    if SessionSettled(env, prefix, suffix) {
      AppendEqualsRebuild(env, ctx, stored, prefix, suffix);
    } else {
      UnsettledDiffers(env, ctx, stored, prefix, suffix);
      var resumed := Attempted(env, ctx, Steady(prefix + suffix), Some(stored)).parsed;
      assert (stored.chunks + resumed.chunks)[0] == stored.chunks[0];
    }
  }

  lemma UnsettledDiffers(env: Env<Option<string>>, ctx: Context, stored: Stored<Option<string>>, prefix: seq<byte>, suffix: seq<byte>)
    requires Represents(env, ctx, stored, prefix) && Echoes(env) && !SessionSettled(env, prefix, suffix)
    requires FullRead(env, ctx, prefix + suffix).Accepted?
    ensures var rebuilt := FullRead(env, ctx, prefix + suffix).parsed.chunks;
      stored.chunks != [] && rebuilt != [] && stored.chunks[0] != rebuilt[0]
  {
    hide NormalizedAll, Echoes, FirstWellFormed;
    FullReadIs(env, ctx, prefix + suffix);
    ResumedScan(env, prefix, suffix);
    var base, more := Scan(env, FRESH, Lines(prefix)).findings, Scan(env, SuffixCursor(prefix), Lines(suffix)).findings;
    var joined := Joined(base, more);
    FirstOfAppend(base.prepared, more.prepared);
    EchoOfFirst(env, Parse(map[], base.hint, [], base.diagnostics), base.prepared);
    EchoOfFirst(env, Parse(map[], joined.hint, [], joined.diagnostics), joined.prepared);
  }

  // ---------------------------------------------------------------- retries on a steady file

  function TriesOn<C>(env: Env<C>, ctx: Context, file: seq<byte>, stored: Option<Stored<C>>): (nat, bool) -> Tried<C> {
    (k, resuming) => Read(Attempted(env, ctx, Steady(file), if resuming then stored else None))
  }

  lemma RetriesOnSteadyFile<C>(env: Env<C>, ctx: Context, file: seq<byte>, stored: Option<Stored<C>>)
    ensures
      var resumed := Attempted(env, ctx, Steady(file), stored);
      Retried(TriesOn(env, ctx, file, stored), 0, stored.Some?, 0).0
      == Read(if stored.Some? && resumed.Accepted? then resumed else FullRead(env, ctx, file))
  {
    FullReadIs(env, ctx, file);
    var tries := TriesOn(env, ctx, file, stored);
    assert tries(0, false) == tries(1, false) == Read(FullRead(env, ctx, file));
    assert Retried(tries, 1, false, 0) == (tries(1, false), 1);
  }

  // ---------------------------------------------------------------- any history

  /** What reading `file` with retries and committing the outcome leaves in the store; a rejected
      source is removed. */
  function StoreAfter<C>(env: Env<C>, ctx: Context, stored: Option<Stored<C>>, file: seq<byte>): Option<Stored<C>> {
    var outcome := Retried(TriesOn(env, ctx, file, stored), 0, stored.Some?, 0).0;
    if outcome.Read? && outcome.attempt.Accepted? then Some(Commit(stored, outcome.attempt.parsed)) else None
  }

  function FullStore<C>(env: Env<C>, ctx: Context, file: seq<byte>): Option<Stored<C>> {
    var outcome := FullRead(env, ctx, file);
    if outcome.Accepted? then Some(Commit(None, outcome.parsed)) else None
  }

  /** The assumptions of resuming after `prefix`: the hash tells it from what the file now begins
      with, and the prefix does not depend on a session that is named only later. */
  ghost predicate Continues<C>(env: Env<C>, prefix: seq<byte>, file: seq<byte>) {
    |prefix| <= |file| && env.hash(file[..|prefix|]) == env.hash(prefix) ==>
      && file[..|prefix|] == prefix
      && SessionSettled(env, prefix, file[|prefix|..])
  }

  /** One more read. What inspection finds may depend on the context, but across contexts nothing is resumed. */
  lemma StoreStep<C>(envs: Context -> Env<C>, before: Context, ctx: Context, stored: Stored<C>, prefix: seq<byte>, file: seq<byte>)
    requires Represents(envs(before), before, stored, prefix) && (before == ctx ==> Continues(envs(ctx), prefix, file))
    ensures StoreAfter(envs(ctx), ctx, Some(stored), file) == FullStore(envs(ctx), ctx, file)
  {
    var env := envs(ctx);
    hide Attempted, Retried, SessionSettled;
    RetriesOnSteadyFile(env, ctx, file, Some(stored));
    FullReadIs(env, ctx, file);
    if !Appends(ctx, Steady(file), Some(stored)) {
      FreshAttempt(env, ctx, Steady(file), stored);
    } else {
      assert before == ctx;
      if env.hash(file[..|prefix|]) == env.hash(prefix) {
        assert file == prefix + file[|prefix|..];
        AppendEqualsRebuild(env, ctx, stored, prefix, file[|prefix|..]);
      } else {
        ChangedPrefixIsNotResumed(env, ctx, stored, prefix, file);
      }
    }
  }

  lemma FreshAttempt<C>(env: Env<C>, ctx: Context, o: Observation, stored: Stored<C>)
    requires !Appends(ctx, o, Some(stored))
    ensures Attempted(env, ctx, o, Some(stored)) == Attempted(env, ctx, o, None)
    ensures Attempted(env, ctx, o, None).Accepted? ==> !Attempted(env, ctx, o, None).parsed.append
  {}

  /** The store after the file has been read once in each of its states, in order. `envs` says what
      inspection and ownership make of a file in each context. */
  function StoreAfterAll<C>(envs: Context -> Env<C>, ctxs: seq<Context>, files: seq<seq<byte>>): Option<Stored<C>>
    requires |ctxs| == |files|
    decreases |files|
  {
    if files == [] then None
    else
      var last := |files| - 1;
      StoreAfter(envs(ctxs[last]), ctxs[last], StoreAfterAll(envs, ctxs[..last], files[..last]), files[last])
  }

  /** What a history has to keep to from one read to the next: only within one context. */
  ghost predicate Succeeds<C>(envs: Context -> Env<C>, before: Context, earlier: seq<byte>, ctx: Context, later: seq<byte>) {
    before == ctx && FullRead(envs(ctx), ctx, earlier).Accepted? ==> Continues(envs(ctx), Complete(earlier), later)
  }

  /** Incremental reading is invisible. Over any history of a file, through growth, truncation,
      rewriting, rejection, and changes of identity, owner or registry, which may change what
      inspection finds, the store holds what one full read of the current content would produce. */
  lemma {:induction false} HistoryIsInvisible<C>(envs: Context -> Env<C>, ctxs: seq<Context>, files: seq<seq<byte>>)
    requires |ctxs| == |files| > 0
    requires forall i {:trigger files[i]} :: 0 < i < |files| ==> Succeeds(envs, ctxs[i - 1], files[i - 1], ctxs[i], files[i])
    ensures var last := |files| - 1;
      StoreAfterAll(envs, ctxs, files) == FullStore(envs(ctxs[last]), ctxs[last], files[last])
    decreases |files|
  {
    hide FullRead, FullStore, StoreAfterAll, Succeeds, Complete;
    var last := |files| - 1;
    if last > 0 {
      var shorterCtxs, shorter := ctxs[..last], files[..last];
      forall i | 0 < i < last
        ensures Succeeds(envs, shorterCtxs[i - 1], shorter[i - 1], shorterCtxs[i], shorter[i])
      {
        assert files[i] == shorter[i];
      }
      HistoryIsInvisible(envs, shorterCtxs, shorter);
    }
    LastStep(envs, ctxs, files);
  }

  lemma LastStep<C>(envs: Context -> Env<C>, ctxs: seq<Context>, files: seq<seq<byte>>)
    requires |ctxs| == |files| > 0
    requires var last := |files| - 1;
      last > 0 ==>
        && StoreAfterAll(envs, ctxs[..last], files[..last]) == FullStore(envs(ctxs[last - 1]), ctxs[last - 1], files[last - 1])
        && Succeeds(envs, ctxs[last - 1], files[last - 1], ctxs[last], files[last])
    ensures var last := |files| - 1;
      StoreAfterAll(envs, ctxs, files) == FullStore(envs(ctxs[last]), ctxs[last], files[last])
  {
    hide FullRead, FullStore, StoreAfter, Continues, Complete, Represents;
    var last := |files| - 1;
    var before, ctx, file := StoreAfterAll(envs, ctxs[..last], files[..last]), ctxs[last], files[last];
    hide StoreAfterAll;
    assert StoreAfterAll(envs, ctxs, files) == StoreAfter(envs(ctx), ctx, before, file) by { AfterLast(envs, ctxs, files); }
    if before.None? {
      NothingStored(envs(ctx), ctx, file);
    } else {
      FileBefore(envs, ctxs[..last], files[..last]);
      StoredRepresents(envs(ctxs[last - 1]), ctxs[last - 1], files[last - 1], before.value);
      StoreStep(envs, ctxs[last - 1], ctx, before.value, Complete(files[last - 1]), file);
    }
  }

  lemma AfterLast<C>(envs: Context -> Env<C>, ctxs: seq<Context>, files: seq<seq<byte>>)
    requires |ctxs| == |files| > 0
    ensures var last := |files| - 1;
      StoreAfterAll(envs, ctxs, files) == StoreAfter(envs(ctxs[last]), ctxs[last], StoreAfterAll(envs, ctxs[..last], files[..last]), files[last])
  {
    hide StoreAfter;
  }

  lemma FileBefore<C>(envs: Context -> Env<C>, ctxs: seq<Context>, files: seq<seq<byte>>)
    requires |ctxs| == |files| && StoreAfterAll(envs, ctxs, files).Some?
    ensures files != []
  {
    hide StoreAfter;
  }

  lemma NothingStored<C>(env: Env<C>, ctx: Context, file: seq<byte>)
    ensures StoreAfter(env, ctx, None, file) == FullStore(env, ctx, file)
  {
    hide Attempted, Retried;
    RetriesOnSteadyFile<C>(env, ctx, file, None);
    FullReadIs(env, ctx, file);
  }

  lemma StoredRepresents<C>(env: Env<C>, ctx: Context, file: seq<byte>, stored: Stored<C>)
    requires FullStore(env, ctx, file) == Some(stored)
    ensures FullRead(env, ctx, file).Accepted? && Represents(env, ctx, stored, Complete(file))
  {
    hide Represents, Complete, FullRead;
    FullReadRepresents(env, ctx, file);
  }

  /** An attempt on a file that was moving, once accepted, is an attempt on the file that the
      verifying pass saw, held still: nothing torn is ever stored, if the hash tells what was read
      from what was verified. */
  lemma AcceptedReadsAreWhole<C>(env: Env<C>, ctx: Context, o: Observation, stored: Option<Stored<C>>)
    requires Attempted(env, ctx, o, stored).Accepted?
    requires var start := StartCursor(ctx, o, stored).start;
      env.hash(Suffix(ctx, o, stored)) == env.hash(After(o.verified, start)) ==> Suffix(ctx, o, stored) == After(o.verified, start)
    ensures Attempted(env, ctx, o, stored)
         == Attempted(env, ctx, Steady(o.verified), if Appends(ctx, o, stored) then stored else None)
    ensures o.steady
  {
    var still, resumed := Steady(o.verified), if Appends(ctx, o, stored) then stored else None;
    assert Verified(env, ctx, o, stored).Some?;
    assert StartCursor(ctx, o, stored) == StartCursor(ctx, still, resumed);
    assert Suffix(ctx, o, stored) == Suffix(ctx, still, resumed);
  }

  // ---------------------------------------------------------------- a session named too late

  /** Every record is ours; the record `[1, NEWLINE]` names session "s"; a chunk is the session it was given. */
  function LateSessionEnv(): Env<Option<string>> {
    Env(bytes => "",
        (bytes: seq<byte>, visible: bool) => Inspected(Some(Mine), if bytes == [1, NEWLINE] then Some("s") else None, false),
        bytes => Summary(None, if bytes == [1, NEWLINE] then Some("s") else None),
        (record: Record, ids: Ids, sessionId: Option<string>) => Normal([], [sessionId], multiset{}))
  }

  /** Append and rebuild can differ: when the session is first named
      after the checkpoint, chunks stored earlier keep the unknown session that a full read resolves. */
  lemma LateSessionIsNotRewritten(ctx: Context)
    ensures
      var env := LateSessionEnv();
      var a: seq<byte>, b: seq<byte> := [0, NEWLINE], [1, NEWLINE];
      var stored := FullStore(env, ctx, a);
      var appended, rebuilt := StoreAfter(env, ctx, stored, a + b), FullStore(env, ctx, a + b);
      && stored.Some? && appended.Some? && rebuilt.Some?
      && appended.value.chunks == [None, Some("s")]
      && rebuilt.value.chunks == [Some("s"), Some("s")]
  {
    hide Attempted, Retried;
    LateFull(ctx);
    LateAppend(ctx);
    RetriesOnSteadyFile(LateSessionEnv(), ctx, [0, NEWLINE] + [1, NEWLINE], FullStore(LateSessionEnv(), ctx, [0, NEWLINE]));
  }

  lemma LateLines()
    ensures var a: seq<byte>, b: seq<byte> := [0, NEWLINE], [1, NEWLINE];
      && Lines(a) == [a] && Tail(a) == [] && Lines(b) == [b] && Tail(b) == []
      && Lines(a + b) == [a, b] && Tail(a + b) == [] && Complete(a) == a && Complete(a + b) == a + b
  {
    LinesOfPair(0);
    LinesOfPair(1);
    LinesOfAppend([0, NEWLINE], [1, NEWLINE]);
  }

  lemma LateFull(ctx: Context)
    ensures
      var env := LateSessionEnv();
      var a: seq<byte>, b: seq<byte> := [0, NEWLINE], [1, NEWLINE];
      && FullRead(env, ctx, a).Accepted? && FullRead(env, ctx, a).parsed.chunks == [None]
      && FullRead(env, ctx, a + b).Accepted? && FullRead(env, ctx, a + b).parsed.chunks == [Some("s"), Some("s")]
  {
    LateLines();
    LateSessionPasses();
    FullReadIs(LateSessionEnv(), ctx, [0, NEWLINE]);
    FullReadIs(LateSessionEnv(), ctx, [0, NEWLINE] + [1, NEWLINE]);
  }

  lemma LateAppend(ctx: Context)
    requires FullRead(LateSessionEnv(), ctx, [0, NEWLINE]).Accepted?
    ensures
      var env := LateSessionEnv();
      var a: seq<byte>, b: seq<byte> := [0, NEWLINE], [1, NEWLINE];
      var resumed := Attempted(env, ctx, Steady(a + b), Some(Commit(None, FullRead(env, ctx, a).parsed)));
      resumed.Accepted? && resumed.parsed.append && resumed.parsed.chunks == [Some("s")]
  {
    LateLines();
    LateSessionPasses();
    var a: seq<byte>, b: seq<byte> := [0, NEWLINE], [1, NEWLINE];
    FullReadRepresents(LateSessionEnv(), ctx, a);
    var stored := Commit(None, FullRead(LateSessionEnv(), ctx, a).parsed);
    assert stored.ids == map[];
    ResumedIs(LateSessionEnv(), ctx, stored, a, b);
  }

  lemma LinesOfPair(b: byte)
    requires b != NEWLINE
    ensures Lines([b, NEWLINE]) == [[b, NEWLINE]] && Tail([b, NEWLINE]) == []
  {
    var none: seq<byte> := [];
    PushByte(none, b);
    PushByte([b], NEWLINE);
    assert none + [b] == [b] && [b] + [NEWLINE] == [b, NEWLINE];
  }

  lemma LateSessionPasses()
    ensures
      var env := LateSessionEnv();
      var r0, r1 := Record(RecordRef("", 0, 2, 1), [0, NEWLINE]), Record(RecordRef("", 2, 4, 2), [1, NEWLINE]);
      && Scan(env, FRESH, [[0, NEWLINE]]) == Cursor(Findings(multiset{}, true, true, false, false, None, [Prepared(r0, false)]), 2, 2, true)
      && Scan(env, FRESH, [[0, NEWLINE], [1, NEWLINE]])
         == Cursor(Findings(multiset{}, true, true, false, false, Some("s"), [Prepared(r0, false), Prepared(r1, false)]), 4, 3, true)
      && Scan(env, Cursor(NoFindings(true), 2, 2, true), [[1, NEWLINE]])
         == Cursor(Findings(multiset{}, true, true, false, false, Some("s"), [Prepared(r1, false)]), 4, 3, true)
      && (forall h: Option<string> :: NormalizedAll(env, Parse(map[], h, [], multiset{}), [Prepared(r0, false)]) == Parse(map[], h, [h], multiset{}))
      && (forall h: Option<string> :: NormalizedAll(env, Parse(map[], h, [], multiset{}), [Prepared(r1, false)]) == Parse(map[], Some("s"), [Some("s")], multiset{}))
      && NormalizedAll(env, Parse(map[], Some("s"), [], multiset{}), [Prepared(r0, false), Prepared(r1, false)])
         == Parse(map[], Some("s"), [Some("s"), Some("s")], multiset{})
  {
    var env := LateSessionEnv();
    var lines: seq<seq<byte>> := [[0, NEWLINE], [1, NEWLINE]];
    var none: seq<seq<byte>> := [];
    assert lines[..1] == [[0, NEWLINE]] && lines[..1][..0] == none && [lines[1]][..0] == none;
    var r0, r1 := Prepared(Record(RecordRef("", 0, 2, 1), [0, NEWLINE]), false), Prepared(Record(RecordRef("", 2, 4, 2), [1, NEWLINE]), false);
    assert [r0, r1][..1] == [r0] && [r0][..0] == [] && [r1][..0] == [];
  }
}
