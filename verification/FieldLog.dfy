/** Visible fields of one event: items grouped into fields, and which fields are let through.
    Exact repeats are to be suppressed, a field's identity being its de-duplication key and its
    whole text. */
module FieldLog {
  import opened Options
  import opened Bytes

  datatype Context = Context(
    agent: string,
    session: string,
    event: Option<string>,
    timestamp: Option<string>,
    role: Option<string>,
    tool: Option<string>,
    kind: Option<string>)

  /** What must agree for two items to belong to one field. Without a key there is no de-duplication. */
  datatype Tag = Tag(context: Context, logical: Option<string>, key: Option<string>)

  datatype Item = Item(tag: Tag, text: seq<byte>)

  datatype Field = Field(tag: Tag, text: seq<byte>)

  const MAX_INLINE_DEDUP_BYTES := 64 * 1024

  // ---------------------------------------------------------------- items into fields

  /** The fields that have ended, and the one that may go on. */
  datatype Grouping = Grouping(closed: seq<Field>, open: Option<Field>)

  function All(g: Grouping): seq<Field> {
    g.closed + if g.open.Some? then [g.open.value] else []
  }

  function Grouped(g: Grouping, item: Item): Grouping {
    if item.tag.key.None? then Grouping(All(g) + [Field(item.tag, item.text)], None)
    else if g.open.Some? && g.open.value.tag == item.tag then
      g.(open := Some(Field(item.tag, g.open.value.text + item.text)))
    else Grouping(All(g), Some(Field(item.tag, item.text)))
  }

  function Group(items: seq<Item>): Grouping {
    if items == [] then Grouping([], None) else Grouped(Group(items[..|items| - 1]), items[|items| - 1])
  }

  /** Grouping keeps the text, whatever the fragment boundaries. */
  lemma {:induction false} GroupingKeepsText(items: seq<Item>)
    ensures FieldTexts(All(Group(items))) == ItemTexts(items)
  {
    if items != [] {
      var front, item := items[..|items| - 1], items[|items| - 1];
      GroupingKeepsText(front);
      var g := Group(front);
      GroupedKeepsText(g, item);
    }
  }

  lemma GroupedKeepsText(g: Grouping, item: Item)
    ensures FieldTexts(All(Grouped(g, item))) == FieldTexts(All(g)) + item.text
  {
    if item.tag.key.Some? && g.open.Some? && g.open.value.tag == item.tag {
      var open := g.open.value;
      FieldTextsPush(g.closed, open);
      FieldTextsPush(g.closed, Field(item.tag, open.text + item.text));
      hide FieldTexts;
      assert FieldTexts(g.closed) + (open.text + item.text) == FieldTexts(g.closed) + open.text + item.text;
    } else {
      FieldTextsPush(All(g), Field(item.tag, item.text));
      assert All(Grouped(g, item)) == All(g) + [Field(item.tag, item.text)];
    }
  }

  /** Consecutive items with one tag, and with a key if there is more than one, are a field with their
      text. */
  ghost predicate IsField(group: seq<Item>, f: Field) {
    && group != [] && f.text == ItemTexts(group)
    && (forall i :: 0 <= i < |group| ==> group[i].tag == f.tag)
    && (|group| > 1 ==> f.tag.key.Some?)
  }

  /** The items in groups, one for each field, of which none could go on with the next. */
  ghost predicate GroupedAs(items: seq<Item>, groups: seq<seq<Item>>, fields: seq<Field>) {
    && Concat(groups) == items && |groups| == |fields|
    && (forall i :: 0 <= i < |groups| ==> IsField(groups[i], fields[i]))
    && (forall i, j :: 0 <= i && j == i + 1 < |fields| && fields[i].tag == fields[j].tag ==> fields[i].tag.key.None?)
  }

  /** Grouping is exact: neighbouring items belong to one field just when they have the same tag,
      with a key. */
  lemma {:induction false} GroupingIsExact(items: seq<Item>) returns (groups: seq<seq<Item>>)
    ensures GroupedAs(items, groups, All(Group(items)))
    ensures Group(items).open.Some? <==> items != [] && items[|items| - 1].tag.key.Some?
  {
    if items == [] {
      groups := [];
    } else {
      var front, item := items[..|items| - 1], items[|items| - 1];
      assert items == front + [item];
      var before := GroupingIsExact(front);
      var g := Group(front);
      if item.tag.key.Some? && g.open.Some? && g.open.value.tag == item.tag {
        groups := GroupGoesOn(front, before, g.closed, g.open.value, item);
      } else {
        groups := before + [[item]];
        assert Last(front, before, All(g), item);
        GroupBegins(front, before, All(g), item);
        assert All(Grouped(g, item)) == All(g) + [Field(item.tag, item.text)];
      }
    }
  }

  /** The item cannot go on with the last field. */
  ghost predicate Last(items: seq<Item>, groups: seq<seq<Item>>, fields: seq<Field>, item: Item) {
    fields != [] && fields[|fields| - 1].tag == item.tag ==> item.tag.key.None?
  }

  lemma ItemTextsOfOne(item: Item)
    ensures ItemTexts([item]) == item.text
  {
    ItemTextsPush([], item);
    assert [] + [item] == [item];
  }

  lemma GroupBegins(items: seq<Item>, groups: seq<seq<Item>>, fields: seq<Field>, item: Item)
    requires GroupedAs(items, groups, fields) && Last(items, groups, fields, item)
    ensures GroupedAs(items + [item], groups + [[item]], fields + [Field(item.tag, item.text)])
  {
    ItemTextsOfOne(item);
    ConcatPush(groups, [item]);
    assert IsField([item], Field(item.tag, item.text));
    hide Concat, ItemTexts, IsField;
  }

  lemma GroupGoesOn(items: seq<Item>, groups: seq<seq<Item>>, closed: seq<Field>, open: Field, item: Item) returns (more: seq<seq<Item>>)
    requires GroupedAs(items, groups, closed + [open]) && open.tag == item.tag && item.tag.key.Some?
    ensures GroupedAs(items + [item], more, closed + [Field(open.tag, open.text + item.text)])
  {
    var before, last := groups[..|groups| - 1], groups[|groups| - 1];
    more := before + [last + [item]];
    assert groups == before + [last];
    ConcatPush(before, last);
    ConcatPush(before, last + [item]);
    ItemTextsPush(last, item);
    assert IsField(last, open) by { assert (closed + [open])[|closed|] == open; }
    assert IsField(last + [item], Field(open.tag, open.text + item.text));
    hide Concat, ItemTexts, IsField;
    assert forall i :: 0 <= i < |closed| ==> (closed + [open])[i] == closed[i] && groups[i] == before[i];
    assert Concat(before) + (last + [item]) == Concat(before) + last + [item];
    var fields, fields' := closed + [open], closed + [Field(open.tag, open.text + item.text)];
    assert forall i :: 0 <= i < |fields| ==> fields'[i].tag == fields[i].tag;
  }

  function FieldTexts(fields: seq<Field>): seq<byte> {
    if fields == [] then [] else FieldTexts(fields[..|fields| - 1]) + fields[|fields| - 1].text
  }

  lemma FieldTextsPush(fields: seq<Field>, f: Field)
    ensures FieldTexts(fields + [f]) == FieldTexts(fields) + f.text
  {
    assert (fields + [f])[..|fields|] == fields;
  }

  function ItemTexts(items: seq<Item>): seq<byte> {
    if items == [] then [] else ItemTexts(items[..|items| - 1]) + items[|items| - 1].text
  }

  lemma ItemTextsPush(items: seq<Item>, i: Item)
    ensures ItemTexts(items + [i]) == ItemTexts(items) + i.text
  {
    assert (items + [i])[..|items|] == items;
  }

  // ---------------------------------------------------------------- what is let through

  predicate Same(f: Field, g: Field) {
    f.tag.key == g.tag.key && f.text == g.text
  }

  predicate Seen(fields: seq<Field>, f: Field) {
    exists g :: g in fields && Same(f, g)
  }

  predicate Dedupable(f: Field) {
    f.tag.key.Some?
  }

  /** The promise: every field without a key, and of the others the first of each identity. */
  function Distinct(fields: seq<Field>): seq<Field> {
    if fields == [] then []
    else
      var front, f := fields[..|fields| - 1], fields[|fields| - 1];
      Distinct(front) + if Dedupable(f) && Seen(front, f) then [] else [f]
  }

  /** No field before it has its key and its whole text; one without a key has no identity. */
  ghost predicate IsFirst(fields: seq<Field>, i: nat) {
    && i < |fields|
    && (fields[i].tag.key.Some? ==>
          forall j :: 0 <= j < i ==> fields[j].tag.key != fields[i].tag.key || fields[j].text != fields[i].text)
  }

  ghost predicate Picked(fields: seq<Field>, at: seq<nat>, picked: seq<Field>) {
    && |at| == |picked|
    && (forall k :: 0 <= k < |at| ==> at[k] < |fields| && picked[k] == fields[at[k]])
    && (forall k, m :: 0 <= k < m < |at| ==> at[k] < at[m])
    && (forall i: nat :: i in at <==> IsFirst(fields, i))
  }

  /** The promise picks, in order, the fields whose key and text have not both been there before, and
      those without a key. */
  lemma {:induction false} DistinctIsFirsts(fields: seq<Field>) returns (at: seq<nat>)
    ensures Picked(fields, at, Distinct(fields))
  {
    if fields == [] {
      at := [];
    } else {
      var front, f := fields[..|fields| - 1], fields[|fields| - 1];
      assert fields == front + [f];
      var before := DistinctIsFirsts(front);
      at := before + if Dedupable(f) && Seen(front, f) then [] else [|front|];
      PickedPush(front, before, Distinct(front), f);
    }
  }

  lemma PickedPush(front: seq<Field>, at: seq<nat>, picked: seq<Field>, f: Field)
    requires Picked(front, at, picked)
    ensures if Dedupable(f) && Seen(front, f) then Picked(front + [f], at, picked)
            else Picked(front + [f], at + [|front|], picked + [f])
  {
    var all, last := front + [f], |front|;
    forall i: nat | i < last ensures IsFirst(all, i) <==> IsFirst(front, i) {
      assert forall j :: 0 <= j <= i ==> all[j] == front[j];
    }
    assert all[last] == f && forall j :: 0 <= j < last ==> all[j] == front[j];
    if Dedupable(f) {
      SeenBefore(front, f);
    }
    assert IsFirst(all, last) <==> !(Dedupable(f) && Seen(front, f));
    hide IsFirst;
    assert forall i :: i in at + [last] <==> i in at || i == last;
    assert forall i: nat :: IsFirst(all, i) ==> i <= last by { FirstIsIndex(all); }
    assert forall i: nat :: IsFirst(front, i) ==> i < last by { FirstIsIndex(front); }
  }

  lemma SeenBefore(front: seq<Field>, f: Field)
    ensures Seen(front, f) <==> exists j :: 0 <= j < |front| && front[j].tag.key == f.tag.key && front[j].text == f.text
  {
    if j :| 0 <= j < |front| && front[j].tag.key == f.tag.key && front[j].text == f.text {
      assert front[j] in front && Same(f, front[j]);
    }
  }

  lemma FirstIsIndex(fields: seq<Field>)
    ensures forall i: nat :: IsFirst(fields, i) ==> i < |fields|
  {}

  /** Fields are compared with the recorded ones only while `storing`. */
  datatype Log = Log(storing: bool, recorded: seq<Field>, emitted: seq<Field>)

  function Finished(log: Log, f: Field): Log {
    if !log.storing then log.(emitted := log.emitted + [f])
    else if Seen(log.recorded, f) then log
    else log.(recorded := log.recorded + [f], emitted := log.emitted + [f])
  }

  predicate TooLong(f: Field) {
    |f.text| > MAX_INLINE_DEDUP_BYTES
  }

  /** One field ends. Storing begins with a field that is too long to be held in memory, or that
      another field with a key follows directly; `more` says that one does. */
  function LogNext(before: Log, f: Field, more: bool): Log {
    if !Dedupable(f) then before.(emitted := before.emitted + [f])
    else Finished(before.(storing := before.storing || TooLong(f) || more), f)
  }

  /** What the implementation does. */
  function Logged(fields: seq<Field>, more: bool): Log
    decreases |fields|
  {
    if fields == [] then Log(false, [], [])
    else
      var f := fields[|fields| - 1];
      LogNext(Logged(fields[..|fields| - 1], Dedupable(f)), f, more)
  }

  // ---------------------------------------------------------------- when the promise is kept

  /** With this field, storing has begun at the latest. */
  ghost predicate BeginsAt(fields: seq<Field>, more: bool, i: nat) {
    && i < |fields| && Dedupable(fields[i])
    && (TooLong(fields[i]) || if i + 1 < |fields| then Dedupable(fields[i + 1]) else more)
  }

  /** A field that ends before storing has begun: held in memory, and followed by an item without a
      key, or by nothing. It is let through without being recorded. */
  ghost predicate Lone(fields: seq<Field>, more: bool, i: nat) {
    i < |fields| && Dedupable(fields[i]) && forall k: nat :: k <= i ==> !BeginsAt(fields, more, k)
  }

  /** The identity of a lone field comes again. */
  ghost predicate LoneRepeat(fields: seq<Field>, more: bool, i: nat, j: nat) {
    Lone(fields, more, i) && i < j < |fields| && Same(fields[i], fields[j])
  }

  ghost predicate Stored(fields: seq<Field>, more: bool, i: nat, f: Field) {
    i < |fields| && Dedupable(fields[i]) && !Lone(fields, more, i) && Same(fields[i], f)
  }

  lemma Earlier(front: seq<Field>, f: Field, more: bool, i: nat)
    requires i < |front|
    ensures BeginsAt(front + [f], more, i) <==> BeginsAt(front, Dedupable(f), i)
    ensures Lone(front + [f], more, i) <==> Lone(front, Dedupable(f), i)
  {
    hide TooLong, Dedupable;
    var all := front + [f];
    forall k: nat | k <= i ensures BeginsAt(all, more, k) <==> BeginsAt(front, Dedupable(f), k) {
      assert all[k] == front[k] && (k + 1 < |front| ==> all[k + 1] == front[k + 1]);
    }
  }

  ghost predicate Storing(fields: seq<Field>, more: bool) {
    exists k: nat :: BeginsAt(fields, more, k)
  }

  ghost predicate AnyStored(fields: seq<Field>, more: bool, f: Field) {
    exists i: nat :: Stored(fields, more, i, f)
  }

  ghost predicate AnyLone(fields: seq<Field>, more: bool, f: Field) {
    exists i: nat :: i < |fields| && Lone(fields, more, i) && Same(fields[i], f)
  }

  ghost predicate AnyLoneRepeat(fields: seq<Field>, more: bool) {
    exists i: nat, j: nat :: LoneRepeat(fields, more, i, j)
  }

  lemma StoringPush(front: seq<Field>, f: Field, more: bool)
    ensures Storing(front + [f], more) <==> Storing(front, Dedupable(f)) || (Dedupable(f) && (TooLong(f) || more))
  {
    var all := front + [f];
    forall k: nat | k < |front| ensures BeginsAt(all, more, k) <==> BeginsAt(front, Dedupable(f), k) {
      Earlier(front, f, more, k);
    }
    hide TooLong, Dedupable;
    if Storing(all, more) {
      var k: nat :| BeginsAt(all, more, k);
    }
    if Storing(front, Dedupable(f)) {
      var k: nat :| BeginsAt(front, Dedupable(f), k);
      assert BeginsAt(all, more, k);
    }
    assert BeginsAt(all, more, |front|) <==> Dedupable(f) && (TooLong(f) || more);
  }

  /** A lone field ends before storing has begun, so the last is lone if it has not begun at all. */
  lemma LastIsLone(front: seq<Field>, f: Field, more: bool)
    ensures Lone(front + [f], more, |front|) <==> Dedupable(f) && !Storing(front + [f], more)
  {
    hide TooLong, Dedupable;
  }

  lemma StoredPush(front: seq<Field>, f: Field, more: bool, g: Field)
    ensures AnyStored(front + [f], more, g) <==>
              AnyStored(front, Dedupable(f), g) || (Dedupable(f) && Storing(front + [f], more) && Same(f, g))
  {
    hide BeginsAt, TooLong, Dedupable, Same, Storing;
    var all := front + [f];
    LastIsLone(front, f, more);
    forall i: nat | i < |front| ensures Lone(all, more, i) <==> Lone(front, Dedupable(f), i) {
      Earlier(front, f, more, i);
    }
    hide Lone;
    forall i: nat | i < |front| ensures Stored(all, more, i, g) <==> Stored(front, Dedupable(f), i, g) {}
    assert Stored(all, more, |front|, g) <==> Dedupable(f) && Storing(all, more) && Same(f, g);
    hide Stored;
    if AnyStored(all, more, g) {
      var i: nat :| Stored(all, more, i, g);
      assert i < |front| || i == |front| by { StoredIsIndex(all, more, i, g); }
    }
    if AnyStored(front, Dedupable(f), g) {
      var i: nat :| Stored(front, Dedupable(f), i, g);
      StoredIsIndex(front, Dedupable(f), i, g);
    }
  }

  lemma StoredIsIndex(fields: seq<Field>, more: bool, i: nat, g: Field)
    requires Stored(fields, more, i, g)
    ensures i < |fields|
  {}

  lemma RepeatPush(front: seq<Field>, f: Field, more: bool)
    ensures AnyLoneRepeat(front + [f], more) <==> AnyLoneRepeat(front, Dedupable(f)) || AnyLone(front, Dedupable(f), f)
  {
    hide BeginsAt, TooLong, Dedupable, Same;
    var all := front + [f];
    forall i: nat | i < |front| ensures Lone(all, more, i) <==> Lone(front, Dedupable(f), i) {
      Earlier(front, f, more, i);
    }
    hide Lone;
    if i: nat, j: nat :| LoneRepeat(all, more, i, j) {
      if j < |front| {
        assert LoneRepeat(front, Dedupable(f), i, j);
      } else {
        assert front[i] == all[i] && all[j] == f;
      }
    }
    if i: nat, j: nat :| LoneRepeat(front, Dedupable(f), i, j) {
      assert LoneRepeat(all, more, i, j);
    }
    if i: nat :| i < |front| && Lone(front, Dedupable(f), i) && Same(front[i], f) {
      assert LoneRepeat(all, more, i, |front|);
    }
  }

  /** Whatever was seen before was stored or lone; only a stored one is found again. */
  lemma SeenIsStoredOrLone(fields: seq<Field>, more: bool, f: Field)
    requires Dedupable(f)
    ensures Seen(fields, f) <==> AnyStored(fields, more, f) || AnyLone(fields, more, f)
    ensures !Storing(fields, more) ==> !AnyStored(fields, more, f)
  {
    hide TooLong;
    if g :| g in fields && Same(f, g) {
      var i :| 0 <= i < |fields| && fields[i] == g;
      assert Stored(fields, more, i, f) || (Lone(fields, more, i) && Same(fields[i], f));
    }
    if i: nat :| Stored(fields, more, i, f) {
      assert fields[i] in fields && Same(f, fields[i]);
      assert !Lone(fields, more, i);
    }
    if i: nat :| i < |fields| && Lone(fields, more, i) && Same(fields[i], f) {
      assert fields[i] in fields && Same(f, fields[i]);
    }
  }

  /** A stored repeat of a lone field is itself a lone repeat. */
  lemma BothMeansRepeat(fields: seq<Field>, more: bool, f: Field)
    requires AnyStored(fields, more, f) && AnyLone(fields, more, f)
    ensures AnyLoneRepeat(fields, more)
  {
    hide BeginsAt;
    var j: nat :| Stored(fields, more, j, f);
    var i: nat :| i < |fields| && Lone(fields, more, i) && Same(fields[i], f);
    LoneIsPrefix(fields, more, i, j);
    assert LoneRepeat(fields, more, i, j);
  }

  lemma LoneIsPrefix(fields: seq<Field>, more: bool, i: nat, j: nat)
    requires Lone(fields, more, i) && j < |fields| && Dedupable(fields[j]) && !Lone(fields, more, j)
    ensures i < j
  {}

  /** How the implementation's log relates to the fields, at any point. */
  ghost predicate LogIs(fields: seq<Field>, more: bool, log: Log) {
    && (log.storing <==> Storing(fields, more))
    && (forall f :: Dedupable(f) ==> (Seen(log.recorded, f) <==> AnyStored(fields, more, f)))
    && |Distinct(fields)| <= |log.emitted|
    && (AnyLoneRepeat(fields, more) ==> |Distinct(fields)| < |log.emitted|)
    && (!AnyLoneRepeat(fields, more) ==> log.emitted == Distinct(fields))
  }

  lemma {:induction false} LoggedIs(fields: seq<Field>, more: bool)
    ensures LogIs(fields, more, Logged(fields, more))
    decreases |fields|
  {
    if fields == [] {
      assert !AnyLoneRepeat([], more) && !Storing([], more) && forall f :: !AnyStored([], more, f);
    } else {
      var front, f := fields[..|fields| - 1], fields[|fields| - 1];
      assert fields == front + [f];
      LoggedIs(front, Dedupable(f));
      LogIsPush(front, f, more, Logged(front, Dedupable(f)));
    }
  }

  lemma LogIsPush(front: seq<Field>, f: Field, more: bool, before: Log)
    requires LogIs(front, Dedupable(f), before)
    ensures LogIs(front + [f], more, LogNext(before, f, more))
  {
    hide AnyStored, AnyLone, AnyLoneRepeat, Storing, TooLong, Seen;
    assert (front + [f])[..|front|] == front;
    assert Distinct(front + [f]) == Distinct(front) + if Dedupable(f) && Seen(front, f) then [] else [f];
    hide Distinct;
    StoringPush(front, f, more);
    RepeatPush(front, f, more);
    if Dedupable(f) {
      SeenIsStoredOrLone(front, true, f);
      if AnyStored(front, true, f) && AnyLone(front, true, f) {
        BothMeansRepeat(front, true, f);
      }
    } else {
      NoneIsSame(front, f);
    }
    RecordedPush(front, f, more, before);
  }

  /** A field without a key has no identity to be repeated. */
  lemma NoneIsSame(front: seq<Field>, f: Field)
    requires !Dedupable(f)
    ensures !AnyLone(front, false, f)
  {}

  lemma RecordedPush(front: seq<Field>, f: Field, more: bool, before: Log)
    requires LogIs(front, Dedupable(f), before)
    ensures var after := LogNext(before, f, more);
      forall g :: Dedupable(g) ==> (Seen(after.recorded, g) <==> AnyStored(front + [f], more, g))
  {
    hide AnyStored, AnyLone, AnyLoneRepeat, Storing, TooLong;
    StoringPush(front, f, more);
    var after := LogNext(before, f, more);
    forall g | Dedupable(g) ensures Seen(after.recorded, g) <==> AnyStored(front + [f], more, g) {
      StoredPush(front, f, more, g);
      SeenPush(before.recorded, f, g);
      if Dedupable(f) && Seen(before.recorded, f) && Same(f, g) {
        SeenSame(before.recorded, f, g);
      }
    }
  }

  lemma SeenPush(recorded: seq<Field>, f: Field, g: Field)
    ensures Seen(recorded + [f], g) <==> Seen(recorded, g) || Same(g, f)
  {
    assert f in recorded + [f];
    assert forall h :: h in recorded + [f] <==> h in recorded || h == f;
  }

  lemma SeenSame(recorded: seq<Field>, f: Field, g: Field)
    requires Seen(recorded, f) && Same(f, g)
    ensures Seen(recorded, g)
  {}

  /** Repeats are suppressed exactly when no lone field's identity comes again: a field that is
      held in memory and followed by an item without a key goes out unrecorded. */
  lemma DedupIsCompleteExactlyWhen(fields: seq<Field>)
    ensures Logged(fields, false).emitted == Distinct(fields) <==> !AnyLoneRepeat(fields, false)
  {
    LoggedIs(fields, false);
  }

  lemma DistinctPush(front: seq<Field>, f: Field)
    ensures Distinct(front + [f]) == Distinct(front) + if Dedupable(f) && Seen(front, f) then [] else [f]
  {
    assert (front + [f])[..|front|] == front;
  }

  lemma LoggedPush(front: seq<Field>, f: Field, more: bool)
    ensures Logged(front + [f], more) == LogNext(Logged(front, Dedupable(f)), f, more)
  {
    assert (front + [f])[..|front|] == front;
  }

  /** A repeat that escapes: any field held in memory, then one without a key, then the first again. */
  lemma LoneFieldIsRepeated(f: Field, plain: Field)
    requires Dedupable(f) && !TooLong(f) && !Dedupable(plain)
    ensures var fields := [f, plain, f];
      && AnyLoneRepeat(fields, false) && (f.text != [] ==> AnyVisibleRepeat(fields, false))
      && Logged(fields, false).emitted == [f, plain, f] && Distinct(fields) == [f, plain]
  {
    var none: seq<Field> := [];
    var one, two, fields := none + [f], none + [f] + [plain], none + [f] + [plain] + [f];
    LoggedPush(none, f, false);
    LoggedPush(one, plain, true);
    LoggedPush(two, f, false);
    DistinctPush(none, f);
    DistinctPush(one, plain);
    DistinctPush(two, f);
    assert Distinct(none) == [] && Logged(none, true) == Log(false, [], []);
    hide Distinct, Logged;
    assert !Seen(none, f);
    assert Seen(two, f) by { assert f in two && Same(f, f); }
    assert one == [f] && two == [f, plain] && fields == [f, plain, f];
    assert Lone(fields, false, 0);
    assert f.text != [] ==> VisibleRepeat(fields, false, 0, 2);
    DedupIsCompleteExactlyWhen(fields);
  }

  /** Among fields that all have keys, no repeat escapes. */
  lemma AllKeyedIsComplete(fields: seq<Field>)
    requires forall i :: 0 <= i < |fields| ==> Dedupable(fields[i])
    ensures Logged(fields, false).emitted == Distinct(fields)
  {
    LoggedIs(fields, false);
    forall i: nat, j: nat ensures !LoneRepeat(fields, false, i, j) {
      if i + 1 < |fields| {
        assert BeginsAt(fields, false, i) by { assert Dedupable(fields[i + 1]); }
      }
    }
  }

  // ---------------------------------------------------------------- fields that show

  /** A field with a key and without text leaves no trace in the output. */
  predicate Shows(f: Field) {
    !Dedupable(f) || f.text != []
  }

  function Shown(fields: seq<Field>): seq<Field> {
    if fields == [] then []
    else Shown(fields[..|fields| - 1]) + if Shows(fields[|fields| - 1]) then [fields[|fields| - 1]] else []
  }

  lemma ShownPush(fields: seq<Field>, f: Field)
    ensures Shown(fields + [f]) == Shown(fields) + if Shows(f) then [f] else []
  {
    assert (fields + [f])[..|fields|] == fields;
  }

  ghost predicate VisibleRepeat(fields: seq<Field>, more: bool, i: nat, j: nat) {
    LoneRepeat(fields, more, i, j) && fields[j].text != []
  }

  ghost predicate AnyVisibleRepeat(fields: seq<Field>, more: bool) {
    exists i: nat, j: nat :: VisibleRepeat(fields, more, i, j)
  }

  lemma VisibleRepeatPush(front: seq<Field>, f: Field, more: bool)
    ensures AnyVisibleRepeat(front + [f], more) <==>
              AnyVisibleRepeat(front, Dedupable(f)) || (f.text != [] && AnyLone(front, Dedupable(f), f))
  {
    hide BeginsAt, TooLong, Dedupable, Same;
    var all := front + [f];
    forall i: nat | i < |front| ensures Lone(all, more, i) <==> Lone(front, Dedupable(f), i) {
      Earlier(front, f, more, i);
    }
    hide Lone;
    if i: nat, j: nat :| VisibleRepeat(all, more, i, j) {
      if j < |front| {
        assert VisibleRepeat(front, Dedupable(f), i, j);
      } else {
        assert front[i] == all[i] && all[j] == f;
      }
    }
    if i: nat, j: nat :| VisibleRepeat(front, Dedupable(f), i, j) {
      assert VisibleRepeat(all, more, i, j);
    }
    if i: nat :| f.text != [] && i < |front| && Lone(front, Dedupable(f), i) && Same(front[i], f) {
      assert VisibleRepeat(all, more, i, |front|);
    }
  }

  lemma BothMeansVisibleRepeat(fields: seq<Field>, more: bool, f: Field)
    requires AnyStored(fields, more, f) && AnyLone(fields, more, f) && f.text != []
    ensures AnyVisibleRepeat(fields, more)
  {
    hide BeginsAt;
    var j: nat :| Stored(fields, more, j, f);
    var i: nat :| i < |fields| && Lone(fields, more, i) && Same(fields[i], f);
    LoneIsPrefix(fields, more, i, j);
    assert VisibleRepeat(fields, more, i, j);
  }

  /** How the emitted fields relate to the distinct ones, by what shows of them. */
  ghost predicate ShowsAs(fields: seq<Field>, more: bool, emitted: seq<Field>) {
    && |FieldTexts(Distinct(fields))| <= |FieldTexts(emitted)|
    && (AnyVisibleRepeat(fields, more) ==> |FieldTexts(Distinct(fields))| < |FieldTexts(emitted)|)
    && (!AnyVisibleRepeat(fields, more) ==> Shown(emitted) == Shown(Distinct(fields)))
  }

  lemma {:induction false} LoggedShows(fields: seq<Field>, more: bool)
    ensures ShowsAs(fields, more, Logged(fields, more).emitted)
    decreases |fields|
  {
    if fields == [] {
      assert !AnyVisibleRepeat([], more);
    } else {
      var front, f := fields[..|fields| - 1], fields[|fields| - 1];
      assert fields == front + [f];
      hide ShowsAs, Logged, LogNext;
      LoggedShows(front, Dedupable(f));
      LoggedIs(front, Dedupable(f));
      LoggedPush(front, f, more);
      ShowsPush(front, f, more, Logged(front, Dedupable(f)));
    }
  }

  lemma ShowsPush(front: seq<Field>, f: Field, more: bool, before: Log)
    requires ShowsAs(front, Dedupable(f), before.emitted) && LogIs(front, Dedupable(f), before)
    ensures ShowsAs(front + [f], more, LogNext(before, f, more).emitted)
  {
    hide AnyStored, AnyLone, AnyLoneRepeat, AnyVisibleRepeat, Storing, TooLong, Seen, Distinct, FieldTexts, Shown;
    DistinctPush(front, f);
    FieldTextsPush(Distinct(front), f);
    FieldTextsPush(before.emitted, f);
    ShownPush(Distinct(front), f);
    ShownPush(before.emitted, f);
    var d, e := Distinct(front), before.emitted;
    assert d + [] == d && |FieldTexts(d) + f.text| == |FieldTexts(d)| + |f.text| && |FieldTexts(e) + f.text| == |FieldTexts(e)| + |f.text|;
    assert Shown(d) + [] == Shown(d) && Shown(e) + [] == Shown(e);
    VisibleRepeatPush(front, f, more);
    if Dedupable(f) {
      SeenIsStoredOrLone(front, true, f);
      if AnyStored(front, true, f) && AnyLone(front, true, f) && f.text != [] {
        BothMeansVisibleRepeat(front, true, f);
      }
    } else {
      NoneIsSame(front, f);
    }
  }

  lemma {:induction false} ShownTexts(fields: seq<Field>)
    ensures FieldTexts(Shown(fields)) == FieldTexts(fields)
  {
    if fields != [] {
      var front, f := fields[..|fields| - 1], fields[|fields| - 1];
      assert fields == front + [f];
      ShownTexts(front);
      ShownPush(front, f);
      FieldTextsPush(front, f);
      FieldTextsPush(Shown(front), f);
      assert Shown(front) + [] == Shown(front);
    }
  }

  lemma {:induction false} EmittedAreFields(fields: seq<Field>, more: bool)
    ensures forall f :: f in Logged(fields, more).emitted ==> f in fields
    decreases |fields|
  {
    if fields != [] {
      var front, f := fields[..|fields| - 1], fields[|fields| - 1];
      assert fields == front + [f];
      LoggedPush(front, f, more);
      hide Logged;
      EmittedAreFields(front, Dedupable(f));
    }
  }
}
