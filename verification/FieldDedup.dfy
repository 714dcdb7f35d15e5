/** The de-duplicating collector of visible fields, in place: one field at a time is held in memory
    or spooled, and compared by key, length, digest and bytes with what has been recorded. */
module FieldDedup {
  import opened Options
  import opened Bytes
  import opened Utf8
  import opened FieldLog
  import opened FieldReplay

  /** One row of the index; the value stands in the spool from `start` to `end`. */
  datatype Row = Row(key: Option<string>, length: nat, digest: seq<byte>, start: nat, end: nat)

  /** The spool of values, whose length is the next offset, and the index. */
  datatype Storage = Storage(values: seq<byte>, rows: seq<Row>)

  /** The digest under way is the bytes it has absorbed. */
  datatype Pending = Pending(tag: Tag, start: nat, length: nat, absorbed: seq<byte>, inline: seq<byte>)

  /** The rows and the recorded fields correspond, one by one. */
  ghost predicate Indexed(hash: seq<byte> -> seq<byte>, s: Storage, recorded: seq<Field>) {
    && |s.rows| == |recorded|
    && forall i :: 0 <= i < |recorded| ==> RowOf(hash, s.values, s.rows[i], recorded[i])
  }

  ghost predicate RowOf(hash: seq<byte> -> seq<byte>, values: seq<byte>, row: Row, f: Field) {
    && row.start <= row.end <= |values| && values[row.start..row.end] == f.text
    && row.key == f.tag.key && row.length == |f.text| && row.digest == hash(f.text)
  }

  lemma IndexedAppend(hash: seq<byte> -> seq<byte>, s: Storage, recorded: seq<Field>, more: seq<byte>)
    requires Indexed(hash, s, recorded)
    ensures Indexed(hash, Storage(s.values + more, s.rows), recorded)
  {
    forall i | 0 <= i < |recorded| ensures RowOf(hash, s.values + more, s.rows[i], recorded[i]) {
      var row := s.rows[i];
      assert (s.values + more)[row.start..row.end] == s.values[row.start..row.end];
    }
  }

  lemma IndexedPush(hash: seq<byte> -> seq<byte>, s: Storage, recorded: seq<Field>, row: Row, f: Field)
    requires Indexed(hash, s, recorded) && RowOf(hash, s.values, row, f)
    ensures Indexed(hash, Storage(s.values, s.rows + [row]), recorded + [f])
  {
    hide RowOf;
  }

  /** Where the field under way is held. */
  ghost predicate HeldIn(storage: Option<Storage>, p: Pending) {
    && p.tag.key.Some? && p.length == |p.absorbed| && WellFormed(p.absorbed)
    && match storage
       case None => p.inline == p.absorbed && |p.inline| <= MAX_INLINE_DEDUP_BYTES
       case Some(s) => p.inline == [] && p.start + p.length == |s.values| && s.values[p.start..] == p.absorbed
  }

  function FieldOf(p: Pending): Field {
    Field(p.tag, p.absorbed)
  }

  function OpenField(active: Option<Pending>): Option<Field> {
    if active.Some? then Some(FieldOf(active.value)) else None
  }

  /** What has come out renders the fields that were let through, each as items that together give
      back its text. */
  ghost predicate Renders(out: seq<Item>, fields: seq<Field>)
    decreases |fields|
  {
    if fields == [] then out == []
    else
      exists k: nat :: k <= |out| && Block(out[k..], fields[|fields| - 1]) && Renders(out[..k], fields[..|fields| - 1])
  }

  lemma RendersPush(out: seq<Item>, fields: seq<Field>, block: seq<Item>, f: Field)
    requires Renders(out, fields) && Block(block, f)
    ensures Renders(out + block, fields + [f])
  {
    hide Block;
    var all, more := out + block, fields + [f];
    assert more[..|fields|] == fields;
    assert all[|out|..] == block && all[..|out|] == out;
    assert |out| <= |all| && Block(all[|out|..], f) && Renders(all[..|out|], more[..|fields|]);
  }

  lemma GroupPush(items: seq<Item>, item: Item)
    ensures Group(items + [item]) == Grouped(Group(items), item)
  {
    assert (items + [item])[..|items|] == items;
  }

  /** With no field under way, what comes next makes no difference to those that have ended. */
  lemma NothingUnderWay(items: seq<Item>)
    requires Group(items).open.None?
    ensures Logged(Group(items).closed, true) == Logged(Group(items).closed, false)
  {}

  /** An item without a key is a field of its own and always let through. */
  lemma PlainItem(item: Item, fields: seq<Field>, log: Log, output: seq<Item>)
    requires item.tag.key.None? && log == Logged(fields, false) && Renders(output, log.emitted)
    ensures LogNext(log, Field(item.tag, item.text), false) == Logged(fields + [Field(item.tag, item.text)], false)
    ensures Renders(output + [item], LogNext(log, Field(item.tag, item.text), false).emitted)
  {
    hide Renders, Logged;
    LoggedPush(fields, Field(item.tag, item.text), false);
    RendersPush(output, log.emitted, [item], Field(item.tag, item.text));
  }

  lemma ActiveHasKey(storage: Option<Storage>, p: Pending)
    requires HeldIn(storage, p)
    ensures p.tag.key.Some?
  {}

  class VisibleFieldDeduper {
    /** Any digest will do: what it takes for equal is compared byte by byte. */
    const hash: seq<byte> -> seq<byte>
    var storage: Option<Storage>
    var active: Option<Pending>
    ghost var items: seq<Item>
    ghost var log: Log
    ghost var output: seq<Item>

    ghost predicate Stores()
      reads this
    {
      match storage
      case None => log.recorded == []
      case Some(s) => Indexed(hash, s, log.recorded)
    }

    ghost predicate Valid()
      reads this
    {
      && Stores()
      && (active.Some? ==> HeldIn(storage, active.value))
      && Group(items) == Grouping(Group(items).closed, OpenField(active))
      && log == Logged(Group(items).closed, active.Some?)
      && (storage.Some? <==> log.storing || (active.Some? && TooLong(FieldOf(active.value))))
      && Renders(output, log.emitted)
    }

    constructor (hash: seq<byte> -> seq<byte>)
      ensures Valid() && this.hash == hash && items == [] && output == []
    {
      this.hash, storage, active := hash, None, None;
      items, log, output := [], Log(false, [], []), [];
    }

    method EnsureStorage()
      modifies this`storage
      ensures storage == if old(storage).Some? then old(storage) else Some(Storage([], []))
    {
      if storage.None? {
        storage := Some(Storage([], []));
      }
    }

    /** Moves the field under way from memory to the spool. */
    method PromoteActive()
      requires storage.None? && active.Some? && HeldIn(storage, active.value) && Stores()
      modifies this`storage, this`active
      ensures storage.Some? && active.Some? && HeldIn(storage, active.value) && FieldOf(active.value) == FieldOf(old(active).value)
      ensures Stores()
    {
      EnsureStorage();
      var bytes := active.value.inline;
      var start := |storage.value.values|;
      storage := Some(storage.value.(values := storage.value.values + bytes));
      active := Some(active.value.(inline := [], start := start));
      assert storage.value.values[start..] == bytes;
    }

    method AppendActive(text: seq<byte>)
      requires active.Some? && HeldIn(storage, active.value) && Stores() && WellFormed(text)
      modifies this`storage, this`active
      ensures active.Some? && HeldIn(storage, active.value) && Stores()
      ensures FieldOf(active.value) == Field(old(active).value.tag, old(active).value.absorbed + text)
      ensures storage.Some? <==> old(storage).Some? || TooLong(FieldOf(active.value))
    {
      hide WellFormed;
      if storage.None? && |active.value.inline| + |text| > MAX_INLINE_DEDUP_BYTES {
        PromoteActive();
      }
      if storage.Some? {
        Spool(text);
      } else {
        var p := active.value;
        WellFormedAppend(p.absorbed, text);
        active := Some(p.(inline := p.inline + text, length := p.length + |text|, absorbed := p.absorbed + text));
      }
    }

    /** Text goes to the end of the spool, where the field under way is. */
    method Spool(text: seq<byte>)
      requires storage.Some? && active.Some? && HeldIn(storage, active.value) && Stores() && WellFormed(text)
      modifies this`storage, this`active
      ensures storage.Some? && active.Some? && HeldIn(storage, active.value) && Stores()
      ensures FieldOf(active.value) == Field(old(active).value.tag, old(active).value.absorbed + text)
    {
      hide WellFormed, Indexed;
      var p, s := active.value, storage.value;
      WellFormedAppend(p.absorbed, text);
      IndexedAppend(hash, s, log.recorded, text);
      assert (s.values + text)[p.start..] == s.values[p.start..] + text;
      storage := Some(s.(values := s.values + text));
      active := Some(p.(length := p.length + |text|, absorbed := p.absorbed + text));
    }

    method StartField(item: Item)
      requires active.None? && item.tag.key.Some? && Stores() && WellFormed(item.text)
      modifies this`storage, this`active
      ensures active.Some? && HeldIn(storage, active.value) && Stores()
      ensures FieldOf(active.value) == Field(item.tag, item.text)
      ensures storage.Some? <==> old(storage).Some? || TooLong(FieldOf(active.value))
    {
      var start := if storage.Some? then |storage.value.values| else 0;
      active := Some(Pending(item.tag, start, 0, [], []));
      assert WellFormed([]) by { assert EncodeAll([]) == []; }
      hide WellFormed;
      assert storage.Some? ==> storage.value.values[start..] == [];
      AppendActive(item.text);
      assert [] + item.text == item.text;
    }

    method FindDuplicate(p: Pending) returns (found: bool)
      requires storage.Some? && HeldIn(storage, p) && Stores()
      ensures found <==> Seen(log.recorded, FieldOf(p))
    {
      hide WellFormed;
      var s := storage.value;
      var digest, end := hash(p.absorbed), p.start + p.length;
      assert s.values[p.start..end] == p.absorbed;
      for i := 0 to |s.rows|
        invariant forall k :: 0 <= k < i ==> !Same(FieldOf(p), log.recorded[k])
      {
        var row := s.rows[i];
        assert RowOf(hash, s.values, row, log.recorded[i]);
        if row.key == p.tag.key && row.length == p.length && row.digest == digest {
          var equal := RangesEqual(s.values, p.start, end, row.start, row.end);
          if equal {
            assert log.recorded[i] in log.recorded;
            return true;
          }
        }
      }
      found := false;
    }

    /** Ends the field under way. */
    method FinishActive() returns (out: seq<Item>)
      requires active.Some? && HeldIn(storage, active.value) && Stores()
      requires log.storing <==> storage.Some?
      modifies this`storage, this`active, this`log
      ensures active.None? && Stores() && log == Finished(old(log), FieldOf(old(active).value))
      ensures storage.Some? == old(storage).Some?
      ensures || (log.emitted == old(log).emitted && out == [])
              || (log.emitted == old(log).emitted + [FieldOf(old(active).value)] && Block(out, FieldOf(old(active).value)))
    {
      var p := active.value;
      active, out := None, [];
      if storage.None? {
        out := ItemsOf(p.tag, p.inline);
        log := Finished(log, FieldOf(p));
        return;
      }
      var duplicate := FindDuplicate(p);
      log := Finished(log, FieldOf(p));
      if duplicate {
        return;
      }
      var s := storage.value;
      assert s.values[p.start..p.start + p.length] == p.absorbed;
      out := ReplayField(p.tag, s.values, p.start, p.length);
      hide WellFormed, Block;
      var row := Row(p.tag.key, p.length, hash(p.absorbed), p.start, p.start + p.length);
      IndexedPush(hash, s, old(log).recorded, row, FieldOf(p));
      storage := Some(s.(rows := s.rows + [row]));
    }

    /** Ends the field under way, if there is one, and enters it in the log. */
    ghost predicate Ended(more: bool)
      reads this
    {
      && active.None? && Stores()
      && log == Logged(All(Group(items)), more)
      && (storage.Some? <==> log.storing)
      && Renders(output, log.emitted)
    }

    method EndField(ghost more: bool) returns (out: seq<Item>)
      requires Stores() && (active.Some? ==> HeldIn(storage, active.value))
      requires Group(items) == Grouping(Group(items).closed, OpenField(active)) && log == Logged(Group(items).closed, active.Some?)
      requires active.Some? ==> (storage.Some? <==> log.storing || TooLong(FieldOf(active.value)) || more)
      requires active.None? ==> (storage.Some? <==> log.storing)
      requires Renders(output, log.emitted)
      modifies this`storage, this`active, this`log, this`output
      ensures Ended(more) && output == old(output) + out
    {
      hide Logged, Group, Renders, HeldIn, Block, WellFormed;
      ghost var closed := Group(items).closed;
      out := [];
      if active.Some? {
        ghost var f := FieldOf(active.value);
        assert Dedupable(f) by { ActiveHasKey(storage, active.value); }
        LoggedPush(closed, f, more);
        log := log.(storing := storage.Some?);
        ghost var before := log.emitted;
        out := FinishActive();
        assert |before + [f]| == |before| + 1;
        if log.emitted == before + [f] {
          RendersPush(output, before, out, f);
        } else {
          assert output + out == output;
        }
        assert All(Group(items)) == closed + [f];
      } else {
        NothingUnderWay(items);
        assert All(Group(items)) == closed && output + out == output;
      }
      output := output + out;
    }

    /** Takes an item and returns what it lets out. */
    method Push(item: Item) returns (out: seq<Item>)
      requires Valid() && WellFormed(item.text)
      modifies this
      ensures Valid() && items == old(items) + [item] && output == old(output) + out
    {
      hide Logged, Group, Renders, HeldIn, Block, WellFormed;
      GroupPush(items, item);
      ghost var g := Group(items);
      if item.tag.key.None? {
        out := EndField(false);
        PlainItem(item, All(g), log, output);
        log := LogNext(log, Field(item.tag, item.text), false);
        output, out := output + [item], out + [item];
        items := items + [item];
        return;
      }
      if active.Some? && active.value.tag == item.tag {
        out := [];
        AppendActive(item.text);
        items := items + [item];
        assert output + out == output;
        return;
      }
      if active.Some? && storage.None? {
        PromoteActive();
      }
      out := EndField(true);
      StartField(item);
      items := items + [item];
    }

    method Finish() returns (out: seq<Item>)
      requires Valid()
      modifies this
      ensures output == old(output) + out && Renders(output, Logged(All(Group(items)), false).emitted) && items == old(items)
    {
      hide Logged, Group, Renders, HeldIn, Block, WellFormed;
      out := EndField(false);
    }
  }

  /** A field in memory goes out as one item, or as none if it is empty. */
  function ItemsOf(tag: Tag, text: seq<byte>): (items: seq<Item>)
    ensures WellFormed(text) && tag.key.Some? ==> Block(items, Field(tag, text))
  {
    assert ItemTexts([]) == [];
    ItemTextsPush([], Item(tag, text));
    assert [] + [Item(tag, text)] == [Item(tag, text)] && [] + text == text;
    if text == [] then [] else [Item(tag, text)]
  }

  // ---------------------------------------------------------------- what the output shows

  lemma {:induction false} ItemTextsOfParts(a: seq<Item>, b: seq<Item>)
    ensures ItemTexts(a + b) == ItemTexts(a) + ItemTexts(b)
    decreases |b|
  {
    if b == [] {
      assert a + b == a;
    } else {
      var front, item := b[..|b| - 1], b[|b| - 1];
      assert a + b == a + front + [item] && b == front + [item];
      ItemTextsOfParts(a, front);
      ItemTextsPush(a + front, item);
      ItemTextsPush(front, item);
    }
  }

  lemma BlockIs(items: seq<Item>, f: Field)
    requires Block(items, f)
    ensures ItemTexts(items) == f.text && (!Shows(f) ==> items == [])
  {
    if f.tag.key.None? {
      assert ItemTexts([]) == [] && [] + [Item(f.tag, f.text)] == items;
      ItemTextsPush([], Item(f.tag, f.text));
    } else if items != [] {
      var front, last := items[..|items| - 1], items[|items| - 1];
      assert items == front + [last];
      ItemTextsPush(front, last);
    }
  }

  lemma NoBlock(f: Field)
    requires !Shows(f)
    ensures Block([], f)
  {
    assert ItemTexts([]) == [];
  }

  /** The last field rendered, and those before it. */
  lemma RendersLast(out: seq<Item>, front: seq<Field>, f: Field) returns (before: seq<Item>, block: seq<Item>)
    requires Renders(out, front + [f])
    ensures out == before + block && Renders(before, front) && Block(block, f)
  {
    hide Block;
    var fields := front + [f];
    assert fields[..|fields| - 1] == front;
    var k: nat :| k <= |out| && Block(out[k..], f) && Renders(out[..k], front);
    before, block := out[..k], out[k..];
  }

  /** The output has the text of the fields it renders. */
  lemma {:induction false} RendersTexts(out: seq<Item>, fields: seq<Field>)
    requires Renders(out, fields)
    ensures ItemTexts(out) == FieldTexts(fields)
    decreases |fields|
  {
    if fields == [] {
      assert ItemTexts([]) == [];
    } else {
      var front, f := fields[..|fields| - 1], fields[|fields| - 1];
      assert fields == front + [f];
      FieldTextsPush(front, f);
      hide Block, ItemTexts, FieldTexts, Renders;
      var before, block := RendersLast(out, front, f);
      RendersTexts(before, front);
      BlockIs(block, f);
      ItemTextsOfParts(before, block);
    }
  }

  lemma {:induction false} RendersShown(out: seq<Item>, fields: seq<Field>)
    requires Renders(out, fields)
    ensures Renders(out, Shown(fields))
    decreases |fields|
  {
    if fields != [] {
      var front, f := fields[..|fields| - 1], fields[|fields| - 1];
      assert fields == front + [f];
      ShownPush(front, f);
      hide Block, Shown, Renders;
      var before, block := RendersLast(out, front, f);
      RendersShown(before, front);
      BlockIs(block, f);
      if Shows(f) {
        RendersPush(before, Shown(front), block, f);
      } else {
        assert before == out && Shown(front) + [] == Shown(front);
      }
    }
  }

  lemma {:induction false} ShownRenders(out: seq<Item>, fields: seq<Field>)
    requires Renders(out, Shown(fields))
    ensures Renders(out, fields)
    decreases |fields|
  {
    if fields != [] {
      var front, f := fields[..|fields| - 1], fields[|fields| - 1];
      assert fields == front + [f];
      ShownPush(front, f);
      hide Block, Shown, Renders;
      if Shows(f) {
        var before, block := RendersLast(out, Shown(front), f);
        ShownRenders(before, front);
        RendersPush(before, front, block, f);
      } else {
        assert Shown(front) + [] == Shown(front) && out + [] == out;
        ShownRenders(out, front);
        NoBlock(f);
        RendersPush(out, front, [], f);
      }
    }
  }

  lemma {:induction false} GroupIsWellFormed(items: seq<Item>)
    requires forall i :: 0 <= i < |items| ==> WellFormed(items[i].text)
    ensures forall f :: f in All(Group(items)) ==> WellFormed(f.text)
  {
    hide WellFormed;
    if items != [] {
      var front, item := items[..|items| - 1], items[|items| - 1];
      GroupIsWellFormed(front);
      GroupedIsWellFormed(Group(front), item);
    }
  }

  lemma GroupedIsWellFormed(g: Grouping, item: Item)
    requires (forall f :: f in All(g) ==> WellFormed(f.text)) && WellFormed(item.text)
    ensures forall f :: f in All(Grouped(g, item)) ==> WellFormed(f.text)
  {
    hide WellFormed;
    assert forall f :: f in g.closed ==> f in All(g);
    if g.open.Some? {
      assert g.open.value in All(g);
      WellFormedAppend(g.open.value.text, item.text);
    }
  }

  /** The items of the output are text. */
  lemma {:induction false} RendersWellFormed(out: seq<Item>, fields: seq<Field>)
    requires Renders(out, fields) && forall f :: f in fields ==> WellFormed(f.text)
    ensures forall i :: 0 <= i < |out| ==> WellFormed(out[i].text)
    decreases |fields|
  {
    hide WellFormed;
    if fields != [] {
      var front, f := fields[..|fields| - 1], fields[|fields| - 1];
      assert fields == front + [f];
      hide Renders, Block;
      var before, block := RendersLast(out, front, f);
      RendersWellFormed(before, front);
      BlockWellFormed(block, f);
    }
  }

  lemma BlockWellFormed(items: seq<Item>, f: Field)
    requires Block(items, f) && WellFormed(f.text)
    ensures forall i :: 0 <= i < |items| ==> WellFormed(items[i].text)
  {
    hide WellFormed;
  }

  /** The output renders the first of each field, and nothing else, exactly when no field with text
      went by unrecorded that comes again. */
  lemma OutputIsCompleteExactlyWhen(out: seq<Item>, fields: seq<Field>)
    requires Renders(out, Logged(fields, false).emitted)
    ensures Renders(out, Distinct(fields)) <==> !AnyVisibleRepeat(fields, false)
  {
    hide Renders, Logged, Distinct, AnyVisibleRepeat, Shown, FieldTexts, ItemTexts;
    LoggedShows(fields, false);
    RendersTexts(out, Logged(fields, false).emitted);
    if Renders(out, Distinct(fields)) {
      RendersTexts(out, Distinct(fields));
    }
    if !AnyVisibleRepeat(fields, false) {
      RendersShown(out, Logged(fields, false).emitted);
      ShownRenders(out, Distinct(fields));
    }
  }

  ghost predicate AllKeyed(fields: seq<Field>) {
    forall i :: 0 <= i < |fields| ==> Dedupable(fields[i])
  }

  lemma KeyedGrouped(g: Grouping, item: Item)
    requires AllKeyed(All(g)) && item.tag.key.Some?
    ensures AllKeyed(All(Grouped(g, item)))
  {
    var all := All(Grouped(g, item));
    forall i | 0 <= i < |all| ensures Dedupable(all[i]) {
      if i < |g.closed| {
        assert all[i] == g.closed[i] == All(g)[i];
      } else if i < |All(g)| {
        assert Dedupable(All(g)[i]);
      }
    }
  }

  lemma {:induction false} KeyedItemsGiveKeyedFields(items: seq<Item>)
    requires forall i :: 0 <= i < |items| ==> items[i].tag.key.Some?
    ensures AllKeyed(All(Group(items)))
  {
    if items != [] {
      var front, item := items[..|items| - 1], items[|items| - 1];
      assert item.tag.key.Some?;
      KeyedItemsGiveKeyedFields(front);
      KeyedGrouped(Group(front), item);
    }
  }

  /** One event from its first item to its last. Whatever the digest, the fragment boundaries and
      the place where spooling began, what comes out renders the fields that were let through: of
      equal fields the first, exactly when no field with text went by unrecorded that comes again; and that
      cannot happen when every item has a key. */
  method Collect(hash: seq<byte> -> seq<byte>, items: seq<Item>) returns (out: seq<Item>)
    requires forall i :: 0 <= i < |items| ==> WellFormed(items[i].text)
    ensures Renders(out, Logged(All(Group(items)), false).emitted)
    ensures Renders(out, Distinct(All(Group(items)))) <==> !AnyVisibleRepeat(All(Group(items)), false)
    ensures (forall i :: 0 <= i < |items| ==> items[i].tag.key.Some?) ==> Renders(out, Distinct(All(Group(items))))
  {
    hide WellFormed, Renders, Group, Logged, Distinct, AnyVisibleRepeat, VisibleFieldDeduper.Valid;
    var deduper := new VisibleFieldDeduper(hash);
    out := [];
    for i := 0 to |items|
      invariant fresh(deduper) && deduper.Valid() && deduper.items == items[..i] && deduper.output == out
    {
      var more := deduper.Push(items[i]);
      out := out + more;
      assert items[..i + 1] == items[..i] + [items[i]];
    }
    assert items[..|items|] == items;
    var more := deduper.Finish();
    out := out + more;
    OutputIsCompleteExactlyWhen(out, All(Group(items)));
    if forall i :: 0 <= i < |items| ==> items[i].tag.key.Some? {
      KeyedItemsGiveKeyedFields(items);
      AllKeyedIsComplete(All(Group(items)));
    }
  }
}
