/** Work scopes and the run tickets that carry them. */
module Scopes {
  import opened Options

  /** Paths are opaque text. */
  type Path = string

  datatype Scope = Full | Sources(paths: set<Path>)

  const MAX_SCOPE_PATHS := 1024

  datatype Ticket = Ticket(
    incarnation: nat,
    collection: string,
    run: nat,
    observed: nat,
    scope: Scope,
    git: bool)

  predicate Covers(scope: Scope, path: Path) {
    scope.Full? || path in scope.paths
  }

  predicate CoversScope(wide: Scope, narrow: Scope) {
    wide.Full? || (narrow.Sources? && narrow.paths <= wide.paths)
  }

  function Merge(scope: Scope, other: Scope): Scope {
    if scope.Sources? && other.Sources? then
      var paths := scope.paths + other.paths;
      if |paths| > MAX_SCOPE_PATHS then Full else Sources(paths)
    else Full
  }

  /** What queueing a scope does to the pending work. */
  function Queued(pending: Option<Scope>, scope: Scope): Scope {
    var bounded := if scope.Sources? && |scope.paths| > MAX_SCOPE_PATHS then Full else scope;
    if pending.Some? then Merge(pending.value, bounded) else bounded
  }

  predicate Bounded(scope: Scope) {
    scope.Sources? ==> |scope.paths| <= MAX_SCOPE_PATHS
  }

  /** Merging keeps all work of both sides and, short of overflow, adds none. */
  lemma MergeCoversExactly(a: Scope, b: Scope, path: Path)
    ensures Covers(a, path) || Covers(b, path) ==> Covers(Merge(a, b), path)
    ensures Merge(a, b).Sources? ==> (Covers(Merge(a, b), path) <==> Covers(a, path) || Covers(b, path))
    ensures CoversScope(Merge(a, b), a) && CoversScope(Merge(a, b), b)
    ensures Bounded(a) ==> Bounded(Merge(a, b))
    ensures Merge(a, b).Full? <==> a.Full? || b.Full? || |a.paths + b.paths| > 1024
  {}

  lemma QueueKeepsWork(pending: Option<Scope>, scope: Scope, old': Scope)
    requires pending.Some? ==> Bounded(pending.value)
    ensures Bounded(Queued(pending, scope))
    ensures CoversScope(Queued(pending, scope), scope)
    ensures pending.Some? && CoversScope(pending.value, old') ==> CoversScope(Queued(pending, scope), old')
    ensures pending.None? && Bounded(scope) ==> Queued(pending, scope) == scope
  {}
}
