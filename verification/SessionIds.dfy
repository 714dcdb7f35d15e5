/** Exact membership for a session's incremental parser state: the committed prefix is read from
    the store, what the current suffix adds is kept apart until it is committed with the chunks. */
module SessionIds {
  import opened Options

  datatype IdKey = IdKey(kind: string, key: string)

  type Ids = map<IdKey, string>

  /** An identifier keeps its first value. */
  function Inserted(ids: Ids, id: IdKey, value: string): Ids {
    if id in ids then ids else ids[id := value]
  }

  function InsertedAll(ids: Ids, inserts: seq<(IdKey, string)>): Ids
    decreases |inserts|
  {
    if inserts == [] then ids
    else InsertedAll(Inserted(ids, inserts[0].0, inserts[0].1), inserts[1..])
  }

  class DurableIdSet {
    const committed: Option<Ids>
    var local: Ids
    var updates: seq<(IdKey, string)>

    /** What lookups see. */
    function View(): Ids
      reads this
    {
      committed.GetOr(map[]) + local
    }

    /** The suffix never shadows the prefix, and the updates build exactly what it added. */
    ghost predicate Valid()
      reads this
    {
      && local.Keys !! committed.GetOr(map[]).Keys
      && local == InsertedAll(map[], updates)
    }

    constructor (append: bool, stored: Ids)
      ensures Valid() && updates == []
      ensures committed == if append then Some(stored) else None
      ensures View() == if append then stored else map[]
    {
      committed := if append then Some(stored) else None;
      local, updates := map[], [];
    }

    /** Inserts one identifier and returns whether it was new to the prefix and to the suffix. */
    method Insert(id: IdKey, value: string) returns (isNew: bool)
      requires Valid()
      modifies this
      ensures Valid() && View() == Inserted(old(View()), id, value)
      ensures isNew <==> id !in old(View())
    {
      if id in local {
        return false;
      }
      if committed.Some? && id in committed.value {
        return false;
      }
      InsertLast(map[], updates, id, value);
      ViewInsert(committed.GetOr(map[]), local, id, value);
      local := local[id := value];
      updates := updates + [(id, value)];
      isNew := true;
    }

    method InsertAll(inserts: seq<(IdKey, string)>)
      requires Valid()
      modifies this
      ensures Valid() && View() == InsertedAll(old(View()), inserts)
    {
      for i := 0 to |inserts|
        invariant Valid() && View() == InsertedAll(old(View()), inserts[..i])
      {
        InsertLast(old(View()), inserts[..i], inserts[i].0, inserts[i].1);
        assert inserts[..i + 1] == inserts[..i] + [inserts[i]];
        var _ := Insert(inserts[i].0, inserts[i].1);
      }
      assert inserts[..|inserts|] == inserts;
    }

    method Value(id: IdKey) returns (value: Option<string>)
      requires Valid()
      ensures value == if id in View() then Some(View()[id]) else None
    {
      if id in local {
        return Some(local[id]);
      }
      value := if committed.Some? && id in committed.value then Some(committed.value[id]) else None;
    }

    /** Hands over the updates; committing them to the prefix gives exactly what lookups saw. */
    method Finish() returns (added: seq<(IdKey, string)>)
      requires Valid()
      ensures InsertedAll(committed.GetOr(map[]), added) == View()
    {
      InsertIntoDisjoint(committed.GetOr(map[]), updates);
      added := updates;
    }
  }

  lemma ViewInsert(prefix: Ids, local: Ids, id: IdKey, value: string)
    requires id !in local && id !in prefix
    ensures prefix + local[id := value] == Inserted(prefix + local, id, value)
    ensures local[id := value] == Inserted(local, id, value)
  {}

  lemma {:induction false} InsertLast(ids: Ids, inserts: seq<(IdKey, string)>, id: IdKey, value: string)
    ensures InsertedAll(ids, inserts + [(id, value)]) == Inserted(InsertedAll(ids, inserts), id, value)
    decreases |inserts|
  {
    if inserts == [] {
      assert [(id, value)][1..] == [];
    } else {
      assert (inserts + [(id, value)])[1..] == inserts[1..] + [(id, value)];
      InsertLast(Inserted(ids, inserts[0].0, inserts[0].1), inserts[1..], id, value);
    }
  }

  /** Two levels are one set: inserting over a prefix is the prefix plus inserting over nothing,
      when nothing inserted is in the prefix. */
  lemma {:induction false} InsertIntoDisjoint(prefix: Ids, inserts: seq<(IdKey, string)>)
    requires InsertedAll(map[], inserts).Keys !! prefix.Keys
    ensures InsertedAll(prefix, inserts) == prefix + InsertedAll(map[], inserts)
    decreases |inserts|
  {
    if inserts == [] {
    } else {
      var last := |inserts| - 1;
      var (id, value) := inserts[last];
      assert inserts == inserts[..last] + [(id, value)];
      InsertLast(map[], inserts[..last], id, value);
      InsertLast(prefix, inserts[..last], id, value);
      InsertIntoDisjoint(prefix, inserts[..last]);
    }
  }
}
