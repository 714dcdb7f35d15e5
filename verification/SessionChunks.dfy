/** Cutting the visible fields of a session into chunks. The items of one logical field are one
    text: its terms are those of the whole, wherever it is cut. */
module SessionChunks {
  import opened Options
  import opened Bytes
  import opened WordForms
  import opened Tokenizer
  import opened OpenTerms
  import opened Collections
  import opened Chunks
  import opened ChunkTerms

  /** What a chunk says besides its text: the metadata and the record of the field's first item. */
  datatype Head = Head(metadata: string, line: nat, startByte: nat, endByte: nat)

  /** An item without a logical identifier stands alone. */
  datatype Piece = Piece(head: Head, logical: Option<string>, text: seq<char>)

  datatype Field = Field(head: Head, logical: Option<string>, text: seq<char>)

  datatype Fields = Fields(closed: seq<Field>, open: Option<Field>)

  function Everything(f: Fields): seq<Field> {
    f.closed + if f.open.Some? then [f.open.value] else []
  }

  predicate Continues(f: Fields, p: Piece) {
    p.logical.Some? && f.open.Some? && f.open.value.logical == p.logical
  }

  function Joined(f: Fields, p: Piece): Fields {
    if Continues(f, p) then f.(open := Some(f.open.value.(text := f.open.value.text + p.text)))
    else if p.logical.Some? then Fields(Everything(f), Some(Field(p.head, p.logical, p.text)))
    else Fields(Everything(f) + [Field(p.head, p.logical, p.text)], None)
  }

  function FieldsOf(pieces: seq<Piece>): Fields {
    if pieces == [] then Fields([], None) else Joined(FieldsOf(pieces[..|pieces| - 1]), pieces[|pieces| - 1])
  }

  /** Consecutive items with one logical identifier, or a single item, are a field with their text and
      the metadata of the first. */
  ghost predicate IsField(group: seq<Piece>, f: Field) {
    && group != [] && f.text == Concat(TextsIn(group)) && f.head == group[0].head
    && (forall i :: 0 <= i < |group| ==> group[i].logical == f.logical)
    && (|group| > 1 ==> f.logical.Some?)
  }

  function TextsIn(pieces: seq<Piece>): seq<seq<char>> {
    seq(|pieces|, i requires 0 <= i < |pieces| => pieces[i].text)
  }

  /** The items in groups, one for each field, of which none could go on with the next. */
  ghost predicate GroupedAs(pieces: seq<Piece>, groups: seq<seq<Piece>>, fields: seq<Field>) {
    && Concat(groups) == pieces && |groups| == |fields|
    && (forall i :: 0 <= i < |groups| ==> IsField(groups[i], fields[i]))
    && (forall i, j :: 0 <= i && j == i + 1 < |fields| && fields[i].logical == fields[j].logical ==> fields[i].logical.None?)
  }

  /** Neighbouring items belong to one field just when they have the same logical identifier. */
  lemma {:induction false} FieldsAreExact(pieces: seq<Piece>) returns (groups: seq<seq<Piece>>)
    ensures GroupedAs(pieces, groups, Everything(FieldsOf(pieces)))
    ensures FieldsOf(pieces).open.Some? <==> pieces != [] && pieces[|pieces| - 1].logical.Some?
  {
    if pieces == [] {
      groups := [];
    } else {
      var front, p := pieces[..|pieces| - 1], pieces[|pieces| - 1];
      assert pieces == front + [p];
      var before := FieldsAreExact(front);
      var f := FieldsOf(front);
      if Continues(f, p) {
        groups := FieldGoesOn(front, before, f.closed, f.open.value, p);
      } else {
        groups := before + [[p]];
        FieldBegins(front, before, Everything(f), p);
        assert Everything(Joined(f, p)) == Everything(f) + [Field(p.head, p.logical, p.text)];
      }
    }
  }

  lemma FieldBegins(pieces: seq<Piece>, groups: seq<seq<Piece>>, fields: seq<Field>, p: Piece)
    requires GroupedAs(pieces, groups, fields)
    requires fields != [] && fields[|fields| - 1].logical == p.logical ==> p.logical.None?
    ensures GroupedAs(pieces + [p], groups + [[p]], fields + [Field(p.head, p.logical, p.text)])
  {
    ConcatPush(groups, [p]);
    ConcatPush([], p.text);
    assert TextsIn([p]) == [] + [p.text] && [] + p.text == p.text;
    assert IsField([p], Field(p.head, p.logical, p.text));
    hide Concat, IsField;
  }

  lemma FieldGoesOn(pieces: seq<Piece>, groups: seq<seq<Piece>>, closed: seq<Field>, open: Field, p: Piece) returns (more: seq<seq<Piece>>)
    requires GroupedAs(pieces, groups, closed + [open]) && open.logical == p.logical && p.logical.Some?
    ensures GroupedAs(pieces + [p], more, closed + [open.(text := open.text + p.text)])
  {
    var before, last := groups[..|groups| - 1], groups[|groups| - 1];
    more := before + [last + [p]];
    assert groups == before + [last];
    ConcatPush(before, last);
    ConcatPush(before, last + [p]);
    ConcatPush(TextsIn(last), p.text);
    assert TextsIn(last + [p]) == TextsIn(last) + [p.text];
    assert IsField(last, open) by { assert (closed + [open])[|closed|] == open; }
    assert IsField(last + [p], open.(text := open.text + p.text));
    hide Concat, IsField;
    assert forall i :: 0 <= i < |closed| ==> (closed + [open])[i] == closed[i] && groups[i] == before[i];
    assert Concat(before) + (last + [p]) == Concat(before) + last + [p];
    var fields, fields' := closed + [open], closed + [open.(text := open.text + p.text)];
    assert forall i :: 0 <= i < |fields| ==> fields'[i].logical == fields[i].logical;
  }

  /** The chunks of one field: bounded, never empty, none shorter than it must be, carrying its head,
      and together its text and exactly the terms of the whole text, each in the chunk that completes it. */
  ghost predicate ChunksOf(u: Unicode, chunks: seq<Chunk<Head>>, f: Field) {
    && Proper(chunks) && Tight(chunks, []) && Headed(chunks, f.head) && Placed(u, chunks)
    && Texts(chunks) == f.text && Terms(chunks) == Tokens(u, f.text)
  }

  ghost predicate Headed(chunks: seq<Chunk<Head>>, head: Head) {
    forall i :: 0 <= i < |chunks| ==> chunks[i].head == head
  }

  ghost predicate Renders(u: Unicode, chunks: seq<Chunk<Head>>, fields: seq<Field>)
    decreases |fields|
  {
    if fields == [] then chunks == []
    else
      exists k: nat :: k <= |chunks| && ChunksOf(u, chunks[k..], fields[|fields| - 1]) && Renders(u, chunks[..k], fields[..|fields| - 1])
  }

  lemma RendersPush(u: Unicode, chunks: seq<Chunk<Head>>, fields: seq<Field>, more: seq<Chunk<Head>>, f: Field)
    requires Renders(u, chunks, fields) && ChunksOf(u, more, f)
    ensures Renders(u, chunks + more, fields + [f])
  {
    hide ChunksOf;
    var all, fs := chunks + more, fields + [f];
    assert fs[..|fields|] == fields && all[|chunks|..] == more && all[..|chunks|] == chunks;
    assert |chunks| <= |all| && ChunksOf(u, all[|chunks|..], f) && Renders(u, all[..|chunks|], fs[..|fields|]);
  }

  lemma HeadOf(text: seq<char>, terms: seq<Term>, head: Head)
    ensures MakeChunk(text, terms, head).head == head && MakeChunk(text, terms, head).text == text
  {}

  lemma NoRoomForNothing()
    ensures forall text :: NoRoom(text, [])
  {}

  lemma FieldsPush(pieces: seq<Piece>, p: Piece)
    ensures FieldsOf(pieces + [p]) == Joined(FieldsOf(pieces), p)
  {
    assert (pieces + [p])[..|pieces|] == pieces;
  }

  class SessionChunkAppender {
    const u: Unicode
    var activeKey: Option<string>
    var active: Option<Head>
    var text: seq<char>
    var tokens: seq<Term>
    var tokenizer: StreamingTokenizer
    var output: seq<Chunk<Head>>
    /** The text of the field under way, and the terms it has given so far. */
    ghost var whole: seq<char>
    ghost var emitted: seq<Term>
    ghost var footprint: set<object>
    ghost var pieces: seq<Piece>
    ghost var done: seq<Chunk<Head>>
    ghost var cut: seq<Chunk<Head>>

    ghost function Repr(): set<object>
      reads this
    {
      {this} + footprint
    }

    /** The tokenizer has seen the text of the field under way. */
    ghost predicate Ready()
      reads this, footprint
    {
      && SaneText(u) && this !in footprint
      && Hears(tokenizer, footprint, u, whole, emitted)
      && Cuts(whole, emitted) && Places() && Fits()
    }

    /** Between two items: the fields in `closed` are done, and text is only missing if there is none. */
    ghost predicate Between(closed: seq<Field>)
      reads this, footprint
    {
      && Ready()
      && Renders(u, done, closed)
      && (text == [] || active.None? ==> whole == [])
    }

    ghost function Under(): Option<Field>
      reads this
    {
      if active.Some? then Some(Field(active.value, activeKey, whole)) else None
    }

    ghost predicate Valid()
      reads this, footprint
    {
      && Between(FieldsOf(pieces).closed)
      && FieldsOf(pieces) == Fields(FieldsOf(pieces).closed, Under())
      && (activeKey.Some? <==> active.Some?)
    }

    constructor (u: Unicode)
      requires SaneText(u)
      ensures Valid() && this.u == u && output == [] && pieces == [] && fresh(Repr())
    {
      this.u, activeKey, active, text, tokens, output := u, None, None, [], [], [];
      var t;
      ghost var fp;
      t, fp := NewTokenizer(u);
      tokenizer, footprint := t, fp;
      pieces, done, cut, whole, emitted := [], [], [], [], [];
      new;
      hide SaneText, Hears, Cutting, PlacedSoFar;
      Fresh();
      NothingPlaced(u, cut);
      NothingTight(cut);
    }

    /** The field has been cut to here; what is left of it is `text` and `tokens`. */
    ghost predicate Cuts(whole: seq<char>, emitted: seq<Term>)
      reads this`output, this`done, this`cut, this`text, this`tokens, this`active
    {
      && output == done + cut
      && Cutting(cut, text, tokens, whole, emitted)
      && (active.Some? ==> Headed(cut, active.value))
    }

    ghost predicate Places()
      reads this`cut
    {
      PlacedSoFar(u, cut)
    }

    /** Chunks have only been cut off where the next character did not fit. */
    ghost predicate Fits()
      reads this`cut, this`text
    {
      Tight(cut, text) && (text == [] ==> cut == [])
    }

    method FlushCurrent(ghost whole: seq<char>, ghost emitted: seq<Term>)
      requires Cuts(whole, emitted) && if text != [] then active.Some? else tokens == []
      requires Places() && Tight(cut, text)
      modifies this`text, this`tokens, this`output, this`cut
      ensures Cuts(whole, emitted) && text == [] && tokens == []
      ensures Tight(cut, []) && (old(text) != [] ==> forall next :: NoRoom(old(text), next) ==> Tight(cut, next))
      ensures Placed(u, cut) && (emitted == SoFar(u, whole) ==> Places())
    {
      hide Cutting, MakeChunk, SoFar, Placed, PlacedAt, NoRoom;
      assert forall t :: NoRoom(t, []) by { NoRoomForNothing(); }
      if text == [] {
        tokens := [];
        return;
      }
      Cut(cut, text, tokens, whole, emitted, active.value);
      PlacedPush(u, cut, text, tokens, whole, emitted, active.value);
      var chunk := MakeChunk(text, tokens, active.value);
      assert chunk.head == active.value && chunk.text == text by { HeadOf(text, tokens, active.value); }
      forall next | NoRoom(text, next) ensures Tight(cut + [chunk], next) {
        TightPush(cut, text, chunk, next);
      }
      hide Tight;
      assert done + (cut + [chunk]) == done + cut + [chunk];
      output := output + [chunk];
      cut := cut + [chunk];
      text, tokens := [], [];
    }

    method MakeRoom(c: char)
      requires Cuts(whole, emitted) && active.Some? && Places() && emitted == SoFar(u, whole) && Fits()
      modifies this`text, this`tokens, this`output, this`cut
      ensures Cuts(whole, emitted) && Size(text) + Len(c) <= MAX_CHUNK_BYTES && Places() && Tight(cut, text + [c])
    {
      assert text == [] ==> Size(text) == 0;
      assert Size([]) == 0;
      TightGrows(cut, text, c);
      assert Size(text) + Len(c) > MAX_CHUNK_BYTES ==> NoRoom(text, [c]);
      assert [] + [c] == [c];
      hide Size, Len, Cuts, Places, SoFar, NoRoom, Tight;
      if text != [] && Size(text) + Len(c) > MAX_CHUNK_BYTES {
        FlushCurrent(whole, emitted);
      }
    }

    method PushCharacter(c: char)
      requires Ready() && active.Some?
      modifies Repr()
      ensures Ready() && text != [] && fresh(Repr() - old(Repr()))
      ensures whole == old(whole) + [c]
      ensures active == old(active) && activeKey == old(activeKey) && pieces == old(pieces) && done == old(done)
    {
      hide Cutting, Headed, Size, Len, SaneText, Hears, Places, SoFar, Tight;
      EmittedIs(tokenizer, footprint, u, whole, emitted);
      MakeRoom(c);
      var more;
      more, footprint := Hear(tokenizer, footprint, u, whole, emitted, c);
      TakeIn(c, more);
      assert Repr() - old(Repr()) <= footprint - old(footprint);
    }

    method TakeIn(c: char, more: seq<Term>)
      requires Cuts(whole, emitted) && Size(text) + Len(c) <= MAX_CHUNK_BYTES && Tight(cut, text + [c])
      modifies this`text, this`tokens, this`whole, this`emitted
      ensures Fits() && Cuts(whole, emitted) && text != [] && whole == old(whole) + [c] && emitted == old(emitted) + more
    {
      hide Cutting, Headed, Size, Len, Tight;
      Grow(cut, text, tokens, whole, emitted, c, more);
      text := text + [c];
      tokens := tokens + more;
      whole, emitted := whole + [c], emitted + more;
    }

    method FinishActive(ghost closed: seq<Field>)
      requires Between(closed)
      modifies Repr()
      ensures Between(closed + if old(active).Some? then [old(Under()).value] else []) && fresh(Repr() - old(Repr()))
      ensures active.None? && activeKey.None? && whole == [] && text == []
      ensures pieces == old(pieces)
    {
      hide Hears, Renders, Tokens, SaneText, Cutting, Headed, Places, Tight;
      if active.None? {
        NothingLeft();
        assert closed + [] == closed;
        activeKey := None;
        return;
      }
      var last := HearEnd(tokenizer, footprint, u, whole, emitted);
      FlushLast(last, closed);
      tokenizer, footprint := NewTokenizer(u);
    }

    method StartField(head: Head, logical: Option<string>, ghost closed: seq<Field>)
      requires Between(closed) && active.None?
      modifies this`active, this`activeKey
      ensures Between(closed) && active == Some(head) && activeKey == logical && text == []
    {
      hide Renders, Hears, SaneText, Tight;
      NothingCut(cut, text, tokens, emitted);
      active, activeKey := Some(head), logical;
    }

    /** One field ends, the next begins. */
    method NextField(head: Head, logical: Option<string>, ghost closed: seq<Field>)
      requires Between(closed)
      modifies Repr()
      ensures Between(closed + if old(active).Some? then [old(Under()).value] else []) && fresh(Repr() - old(Repr()))
      ensures active == Some(head) && activeKey == logical && whole == [] && pieces == old(pieces)
    {
      hide Renders, Cutting, Headed, Hears, SaneText, Tight;
      ghost var ended := closed + if active.Some? then [Under().value] else [];
      FinishActive(closed);
      StartField(head, logical, ended);
    }

    /** The characters of one item. */
    method PushText(text': seq<char>, ghost closed: seq<Field>)
      requires Between(closed) && active.Some?
      modifies Repr()
      ensures Between(closed) && fresh(Repr() - old(Repr())) && whole == old(whole) + text'
      ensures active == old(active) && activeKey == old(activeKey) && pieces == old(pieces)
    {
      hide Cuts, Places, SaneText, Hears, Renders, Fits;
      assert old(whole) + [] == old(whole);
      for i := 0 to |text'|
        invariant Between(closed) && fresh(Repr() - old(Repr())) && whole == old(whole) + text'[..i]
        invariant active == old(active) && activeKey == old(activeKey) && pieces == old(pieces)
      {
        PushCharacter(text'[i]);
        assert text'[..i + 1] == text'[..i] + [text'[i]];
        assert old(whole) + text'[..i] + [text'[i]] == old(whole) + text'[..i + 1];
      }
      assert text'[..|text'|] == text';
    }

    /** Takes an item. Another logical field, or an item that stands alone, ends the one under way. */
    method Push(piece: Piece)
      requires Valid()
      modifies Repr()
      ensures Valid() && pieces == old(pieces) + [piece] && fresh(Repr() - old(Repr()))
    {
      hide Renders, FieldsOf, Cuts, Places, Hears, SaneText, Fits;
      ghost var before := FieldsOf(pieces);
      FieldsPush(pieces, piece);
      var standalone := piece.logical.None?;
      ghost var closed := before.closed;
      if standalone || activeKey != piece.logical {
        NextField(piece.head, piece.logical, closed);
        closed := Everything(before);
      }
      assert [] + piece.text == piece.text;
      PushText(piece.text, closed);
      if standalone {
        FinishActive(closed);
      }
      pieces := pieces + [piece];
    }

    method Finish()
      requires Valid()
      modifies Repr()
      ensures Renders(u, output, Everything(FieldsOf(pieces))) && pieces == old(pieces)
    {
      hide Renders, FieldsOf, Hears, SaneText;
      FinishActive(FieldsOf(pieces).closed);
      NothingCut(cut, text, tokens, emitted);
      assert done + [] == done;
      assert FieldsOf(pieces).closed + [] == FieldsOf(pieces).closed;
    }

    ghost method NothingLeft()
      requires Cuts([], emitted)
      ensures text == []
    {
      NothingCut(cut, text, tokens, emitted);
    }

    /** The tokenizer's last terms go with the last chunk of the field. */
    method FlushLast(last: seq<Term>, ghost closed: seq<Field>)
      requires Cuts(whole, emitted) && emitted + last == Tokens(u, whole) && active.Some?
      requires Places() && Fits() && Renders(u, done, closed) && (text == [] ==> whole == [])
      modifies this
      ensures Cuts(whole, emitted) && Places() && Fits() && Renders(u, done, closed + [old(Under()).value])
      ensures active.None? && activeKey.None? && whole == [] && emitted == [] && text == []
      ensures tokenizer == old(tokenizer) && pieces == old(pieces)
    {
      hide Renders, Headed, Cutting, Tokens, ChunksOf, Placed, PlacedSoFar, SoFar, Tight;
      Closing(u, cut, text, tokens, whole, emitted, last);
      tokens := tokens + last;
      FlushCurrent(whole, Tokens(u, whole));
      CloseField(closed);
    }

    /** The field is cut to its end. */
    method CloseField(ghost closed: seq<Field>)
      requires Cuts(whole, Tokens(u, whole)) && text == [] && tokens == [] && Placed(u, cut) && active.Some? && Tight(cut, [])
      requires Renders(u, done, closed)
      modifies this`active, this`activeKey, this`done, this`cut, this`whole, this`emitted
      ensures Cuts(whole, emitted) && Places() && Fits() && Renders(u, done, closed + [old(Under()).value])
      ensures active.None? && activeKey.None? && whole == [] && emitted == []
    {
      hide Renders, Headed, Cutting, Tokens, ChunksOf, Placed, PlacedSoFar, SoFar, Tight;
      ghost var f := Field(active.value, activeKey, whole);
      CutWhole(u, cut, whole, f);
      RendersPush(u, done, closed, cut, f);
      done, cut := done + cut, [];
      active, activeKey, whole, emitted := None, None, [], [];
      Fresh();
      NothingPlaced(u, cut);
      NothingTight(cut);
      assert done + [] == done;
    }
  }

  lemma NothingCut(cut: seq<Chunk<Head>>, text: seq<char>, tokens: seq<Term>, emitted: seq<Term>)
    requires Cutting(cut, text, tokens, [], emitted)
    ensures cut == [] && text == []
  {
    assert Size([]) == 0;
    assert Texts(cut) + text == [];
    TextsNonEmpty(cut);
  }

  lemma TextsNonEmpty(cut: seq<Chunk<Head>>)
    requires Proper(cut)
    ensures cut != [] ==> Texts(cut) != []
  {
    assert Size([]) == 0;
    if cut != [] {
      assert cut[|cut| - 1].text != [];
    }
  }

  /** The field ends: the tokenizer gives its last terms. */
  lemma Closing(u: Unicode, cut: seq<Chunk<Head>>, text: seq<char>, tokens: seq<Term>, whole: seq<char>, before: seq<Term>, last: seq<Term>)
    requires Cutting(cut, text, tokens, whole, before) && before + last == Tokens(u, whole)
    ensures Cutting(cut, text, tokens + last, whole, Tokens(u, whole))
    ensures whole == [] ==> tokens + last == []
  {
    NoTextNoTerms(u);
    hide Tokens, Texts, Terms, Proper, Size;
    Associates(Terms(cut), tokens, last);
    if whole == [] {
      assert |Terms(cut) + (tokens + last)| == 0;
    }
  }

  lemma NoTextNoTerms(u: Unicode)
    ensures Tokens(u, []) == []
  {}

  lemma CutWhole(u: Unicode, cut: seq<Chunk<Head>>, whole: seq<char>, f: Field)
    requires Cutting(cut, [], [], whole, Tokens(u, whole)) && Headed(cut, f.head) && f.text == whole && Placed(u, cut) && Tight(cut, [])
    ensures ChunksOf(u, cut, f)
  {
    assert Texts(cut) + [] == Texts(cut) && Terms(cut) + [] == Terms(cut);
  }

  lemma Fresh()
    ensures Cutting<Head>([], [], [], [], [])
  {
    assert Size([]) == 0;
  }

  /** The items of a session, from the first to the last: every logical field becomes chunks that
      are bounded and never empty, hold its text in order, carry its metadata, and together carry
      exactly the terms of its whole text, also where a cut divides a word. */
  method CutAll(u: Unicode, pieces: seq<Piece>) returns (chunks: seq<Chunk<Head>>)
    requires SaneText(u)
    ensures Renders(u, chunks, Everything(FieldsOf(pieces)))
  {
    hide Renders, FieldsOf, SaneText, SessionChunkAppender.Valid;
    var appender := new SessionChunkAppender(u);
    for i := 0 to |pieces|
      invariant appender.Valid() && appender.u == u && appender.pieces == pieces[..i] && fresh(appender.Repr())
    {
      appender.Push(pieces[i]);
      assert pieces[..i + 1] == pieces[..i] + [pieces[i]];
    }
    assert pieces[..|pieces|] == pieces;
    appender.Finish();
    chunks := appender.output;
  }

  // ---------------------------------------------------------------- what the store makes of a field

  /** What is indexed for a field is what its text contains, exactly when each of its chunks with a
      letter or a digit carries terms. */
  lemma StoreIndexesFieldExactlyWhen(u: Unicode, chunks: seq<Chunk<Head>>, f: Field)
    requires SaneText(u) && ChunksOf(u, chunks, f)
    ensures |Tokens(u, f.text)| <= |IndexedAll(u, chunks)|
    ensures IndexedAll(u, chunks) == Tokens(u, f.text) <==> NothingToAdd(u, chunks)
  {
    hide Tokens, IndexedAll, Terms, NothingToAdd, SaneText;
    StoreAddsNothingExactlyWhen(u, chunks);
  }

  /** A word of one component that is too long for one chunk. Its first chunk carries no terms, as
      none is complete by then, so the store indexes a part of it that the field does not contain as
      a word. */
  lemma LongWordIsIndexedInPart(u: Unicode, chunks: seq<Chunk<Head>>, f: Field)
    requires SaneText(u) && PlainWord(u, f.text) && Size(f.text) > MAX_CHUNK_BYTES
    requires ChunksOf(u, chunks, f)
    ensures IndexedAll(u, chunks) != Tokens(u, f.text)
  {
    hide Tokens, SaneText, IndexedAll, NothingToAdd, HasAlphanumeric, ChunksOf, SoFar;
    FirstOfMany(u, chunks, f);
    PlainGivesNothing(u, chunks[0].text);
    NoTermsBefore(u, chunks);
    PlainHas(u, chunks[0].text);
    FirstLacks(u, chunks);
    StoreIndexesFieldExactlyWhen(u, chunks, f);
  }

  lemma FirstLacks(u: Unicode, chunks: seq<Chunk<Head>>)
    requires chunks != [] && chunks[0].terms.None? && HasAlphanumeric(u, chunks[0].text)
    ensures !NothingToAdd(u, chunks)
  {
    hide HasAlphanumeric;
  }

  lemma FirstOfMany(u: Unicode, chunks: seq<Chunk<Head>>, f: Field)
    requires ChunksOf(u, chunks, f) && PlainWord(u, f.text) && Size(f.text) > MAX_CHUNK_BYTES
    ensures Placed(u, chunks) && |chunks| > 1 && chunks[0].text != [] && PlainWord(u, chunks[0].text) && chunks[0].terms != Some([])
  {
    hide Tokens, Placed, Headed, Terms, PlainWord;
    assert Texts(chunks) == f.text && Size([]) == 0;
    if |chunks| <= 1 {
      assert chunks == [] || Texts(chunks) == [] + chunks[0].text == chunks[0].text by {
        if chunks != [] { assert chunks[..0] == []; }
      }
    } else {
      assert Proper(chunks) && 0 < Size(chunks[0].text);
      hide Size, Proper;
      FirstText(chunks);
      PlainPrefix(u, f.text, chunks[0].text);
    }
  }

  lemma PlainPrefix(u: Unicode, w: seq<char>, start: seq<char>)
    requires PlainWord(u, w) && start <= w
    ensures PlainWord(u, start)
  {}

  lemma {:induction false} FirstText(chunks: seq<Chunk<Head>>)
    requires chunks != []
    ensures chunks[0].text <= Texts(chunks)
    decreases |chunks|
  {
    var front := chunks[..|chunks| - 1];
    if front == [] {
      assert Texts(chunks) == [] + chunks[0].text;
    } else {
      FirstText(front);
    }
  }
}
