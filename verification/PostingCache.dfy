/** The bounded posting cache above the store. Readers at different store generations share it;
    between a miss and the insertion that follows it, anything may happen. */
module PostingCache {
  import opened Collections
  import opened Options

  const CACHE_BYTES := 64 * 1024 * 1024
  const TERM_BYTES := 16 * 1024 * 1024

  datatype Key = Key(collection: string, kind: string, term: int)

  /** Postings are opaque here, but for the room they take. */
  datatype Entry = Entry(postings: seq<string>, bytes: nat)

  function Total(entries: map<Key, Entry>, order: seq<Key>): nat
    requires forall k :: k in order ==> k in entries
  {
    if order == [] then 0 else entries[order[0]].bytes + Total(entries, order[1..])
  }

  lemma {:induction false} TotalPush(entries: map<Key, Entry>, order: seq<Key>, key: Key, entry: Entry)
    requires key !in order && forall k :: k in order ==> k in entries
    ensures Total(entries[key := entry], order + [key]) == Total(entries, order) + entry.bytes
  {
    if order == [] {
      assert Total(entries[key := entry], [key]) == entry.bytes;
      assert [] + [key] == [key];
    } else {
      TotalPush(entries, order[1..], key, entry);
      assert (order + [key])[1..] == order[1..] + [key];
    }
  }

  lemma {:induction false} TotalWithout(entries: map<Key, Entry>, order: seq<Key>, key: Key)
    requires key !in order && forall k :: k in order ==> k in entries
    ensures Total(entries - {key}, order) == Total(entries, order)
  {
    if order != [] {
      TotalWithout(entries, order[1..], key);
    }
  }

  ghost predicate Lists(order: seq<Key>, entries: map<Key, Entry>) {
    NoRepeats(order) && forall k :: k in order <==> k in entries
  }

  lemma OneAlone(key: Key)
    ensures NoRepeats([key]) && Elems([key]) == {key}
  {}

  lemma OneAndRest(first: Key, rest: seq<Key>)
    requires NoRepeats([first] + rest)
    ensures NoRepeats(rest) && first !in rest
  {
    DistinctParts([first], rest);
    OneAlone(first);
    assert first in rest ==> first in Elems(rest);
  }

  /** What is cached and in which order it came. */
  datatype Cached = Cached(entries: map<Key, Entry>, order: seq<Key>) {
    ghost predicate Valid() {
      Lists(order, entries)
    }

    ghost function Bytes(): nat
      requires Valid()
    {
      Total(entries, order)
    }

    /** The oldest gone. */
    ghost function Older(): (c: Cached)
      requires Valid() && order != []
      ensures c.Valid() && Bytes() == entries[order[0]].bytes + c.Bytes()
    {
      assert order == [order[0]] + order[1..];
      OneAndRest(order[0], order[1..]);
      TotalWithout(entries, order[1..], order[0]);
      Cached(entries - {order[0]}, order[1..])
    }

    /** The `n` oldest gone. */
    ghost function Without(n: nat): (c: Cached)
      requires Valid() && n <= |order|
      ensures c.Valid() && c.order == order[n..]
      ensures forall k :: k in c.entries ==> k in entries && c.entries[k] == entries[k]
      decreases n
    {
      if n == 0 then this else Older().Without(n - 1)
    }
  }

  lemma {:induction false} WithoutOneMore(c: Cached, n: nat)
    requires c.Valid() && n < |c.order|
    ensures c.Without(n + 1) == c.Without(n).Older()
    decreases n
  {
    if n > 0 {
      WithoutOneMore(c.Older(), n - 1);
    }
  }

  /** Eviction takes the oldest, as few as make room, and stops when nothing is left. */
  ghost predicate MakesRoom(c: Cached, n: nat, bytes: nat)
    requires c.Valid()
  {
    && n <= |c.order|
    && (n < |c.order| ==> c.Without(n).Bytes() + bytes <= CACHE_BYTES)
    && (n > 0 ==> c.Without(n - 1).Bytes() + bytes > CACHE_BYTES)
  }

  lemma InsertIs(c: Cached, key: Key, entry: Entry)
    requires c.Valid() && key !in c.entries
    ensures var more := Cached(c.entries[key := entry], c.order + [key]);
      more.Valid() && more.Bytes() == c.Bytes() + entry.bytes
  {
    TotalPush(c.entries, c.order, key, entry);
    var order := c.order + [key];
    DistinctParts(c.order, [key]);
    OneAlone(key);
    assert forall k :: k in order <==> k in c.order || k == key;
  }

  class Cache {
    /** What a transaction at a generation reads for a key. */
    const load: (nat, Key) -> Entry
    var generation: nat
    var entries: map<Key, Entry>
    var order: seq<Key>
    var bytes: nat
    var pressure: bool

    ghost function Contents(): Cached
      reads this
    {
      Cached(entries, order)
    }

    /** Everything cached is what a direct load gives; every key is listed once; the count is the
        sum, and only a single entry larger than the cap can exceed it. */
    ghost predicate Valid()
      reads this
    {
      && Contents().Valid()
      && (forall k :: k in entries ==> entries[k] == load(generation, k))
      && bytes == Contents().Bytes()
      && (bytes <= CACHE_BYTES || |order| == 1)
      && (pressure ==> entries == map[])
    }

    constructor (load: (nat, Key) -> Entry)
      ensures Valid() && this.load == load && generation == 0 && entries == map[] && !pressure
    {
      this.load := load;
      generation, entries, order, bytes, pressure := 0, map[], [], 0, false;
    }

    method Pressure(on: bool)
      requires Valid()
      modifies this
      ensures Valid() && pressure == on && generation == old(generation)
      ensures Contents() == if on then Cached(map[], []) else old(Contents())
    {
      pressure := on;
      if on {
        Clear();
      }
    }

    method Clear()
      modifies this`entries, this`order, this`bytes
      ensures Contents() == Cached(map[], []) && bytes == 0
    {
      entries, order, bytes := map[], [], 0;
    }

    /** A reader at another generation empties the cache. */
    method Get(at: nat, key: Key) returns (entry: Option<Entry>)
      requires Valid()
      modifies this
      ensures Valid() && generation == at && pressure == old(pressure)
      ensures Contents() == if at == old(generation) then old(Contents()) else Cached(map[], [])
      ensures entry.Some? ==> entry.value == load(at, key)
      ensures entry.Some? <==> at == old(generation) && key in old(entries)
    {
      if generation != at {
        Clear();
        generation := at;
      }
      entry := if key in entries then Some(entries[key]) else None;
    }

    method Insert(at: nat, key: Key, entry: Entry)
      requires Valid() && entry == load(at, key)
      modifies this
      ensures Valid() && generation == old(generation) && pressure == old(pressure)
      ensures old(bytes) <= CACHE_BYTES && entry.bytes <= CACHE_BYTES ==> bytes <= CACHE_BYTES
      ensures old(pressure || at != generation || key in entries) ==> Contents() == old(Contents())
      ensures !old(pressure || at != generation || key in entries) ==>
                exists n :: MakesRoom(old(Contents()), n, entry.bytes)
                  && var kept := old(Contents()).Without(n);
                     Contents() == Cached(kept.entries[key := entry], kept.order + [key])
    {
      if pressure || at != generation || key in entries {
        return;
      }
      ghost var start := Contents();
      ghost var n := Evict(entry.bytes);
      InsertIs(Contents(), key, entry);
      hide MakesRoom, Cached.Without, Cached.Bytes, Cached.Valid;
      assert MakesRoom(start, n, entry.bytes);
      bytes := bytes + entry.bytes;
      order := order + [key];
      entries := entries[key := entry];
    }

    method Evict(room: nat) returns (ghost n: nat)
      requires Contents().Valid() && bytes == Contents().Bytes()
      modifies this`entries, this`order, this`bytes
      ensures Contents().Valid() && bytes == Contents().Bytes()
      ensures MakesRoom(old(Contents()), n, room) && Contents() == old(Contents()).Without(n)
      ensures bytes <= old(bytes) && (order == [] || bytes + room <= CACHE_BYTES)
    {
      ghost var start := Contents();
      n := 0;
      assert start.Without(0) == start;
      hide Cached.Without, Cached.Bytes, Cached.Valid, Cached.Older;
      while bytes + room > CACHE_BYTES && order != []
        invariant n <= |start.order| && Contents() == start.Without(n)
        invariant bytes == Contents().Bytes() && bytes <= old(bytes)
        invariant n > 0 ==> start.Without(n - 1).Bytes() + room > CACHE_BYTES
        decreases |order|
      {
        WithoutOneMore(start, n);
        PopOldest();
        n := n + 1;
      }
    }

    method PopOldest()
      requires Contents().Valid() && bytes == Contents().Bytes() && order != []
      modifies this`entries, this`order, this`bytes
      ensures Contents() == old(Contents()).Older() && bytes == Contents().Bytes() <= old(bytes)
    {
      assert order[0] in order && order[0] in entries;
      hide Total, Lists;
      ghost var older := Contents().Older();
      var old' := order[0];
      order := order[1..];
      bytes := bytes - entries[old'].bytes;
      entries := entries - {old'};
    }

    /** Any interleaving of readers at any generations, and of memory pressure. Whatever a look
        finds is what a direct load gives, and the cap is kept at every point. */
    method Run(steps: seq<Step>) returns (answers: seq<Option<Entry>>)
      requires Valid() && bytes <= CACHE_BYTES
      modifies this
      ensures Valid() && bytes <= CACHE_BYTES && |answers| == |steps|
      ensures forall i :: 0 <= i < |steps| && answers[i].Some? ==>
                steps[i].Look? && answers[i].value == load(steps[i].at, steps[i].key)
    {
      answers := [];
      for i := 0 to |steps|
        invariant Valid() && bytes <= CACHE_BYTES && |answers| == i
        invariant forall k :: 0 <= k < i && answers[k].Some? ==>
                    steps[k].Look? && answers[k].value == load(steps[k].at, steps[k].key)
      {
        var answer := None;
        match steps[i] {
          case Look(at, key) => answer := Get(at, key);
          case Fill(at, key) =>
            var entry := load(at, key);
            if entry.bytes <= TERM_BYTES {
              Insert(at, key, entry);
            }
          case Squeeze(on) => Pressure(on);
        }
        answers := answers + [answer];
      }
    }
  }

  /** A reader looks, and, later, fills in what it has loaded meanwhile; too large a term is never filled in. */
  datatype Step = Look(at: nat, key: Key) | Fill(at: nat, key: Key) | Squeeze(on: bool)
}
