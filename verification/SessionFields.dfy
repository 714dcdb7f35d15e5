/** The visible fields of one record, from the items that normalisation finds to the chunks that are
    stored: de-duplicated first, then cut. */
module SessionFields {
  import opened Bytes
  import opened Utf8
  import opened WordForms
  import opened Tokenizer
  import opened Chunks
  import opened FieldLog
  import Dedup = FieldDedup
  import Cut = SessionChunks
  import Reading = FileReading

  /** The text of an item, as characters. */
  function CharactersOf(bytes: seq<byte>): seq<char> {
    Reading.TextOf(Reading.Utf8Text, 0, bytes)
  }

  lemma CharactersEncode(bytes: seq<byte>)
    requires WellFormed(bytes)
    ensures EncodeAll(Reading.Scalars(CharactersOf(bytes))) == bytes
  {
    hide Reading.OutOf, EncodeAll, Reading.Accepted, Reading.Scalars, Reading.AsChars;
    if cs: seq<Scalar> :| EncodeAll(cs) == bytes {
      assert Reading.EncodeText(Reading.Utf8Text, cs) == bytes;
    }
    Reading.DecodingIsExact(Reading.Utf8Text, 0, bytes);
    Reading.AsCharsIs(Reading.OutOf(Reading.Utf8Text, 0, bytes));
  }

  lemma ScalarsOfParts(a: seq<char>, b: seq<char>)
    ensures Reading.Scalars(a + b) == Reading.Scalars(a) + Reading.Scalars(b)
  {}

  function Encoded(text: seq<char>): seq<byte> {
    EncodeAll(Reading.Scalars(text))
  }

  lemma EncodedParts(a: seq<char>, b: seq<char>)
    ensures Encoded(a + b) == Encoded(a) + Encoded(b)
  {
    ScalarsOfParts(a, b);
    EncodeAllAppend(Reading.Scalars(a), Reading.Scalars(b));
  }

  // ---------------------------------------------------------------- pieces keep the text

  function PieceOf(head: Tag -> Cut.Head, item: Item): Cut.Piece {
    Cut.Piece(head(item.tag), item.tag.logical, CharactersOf(item.text))
  }

  function PiecesOf(head: Tag -> Cut.Head, items: seq<Item>): seq<Cut.Piece> {
    seq(|items|, i requires 0 <= i < |items| => PieceOf(head, items[i]))
  }

  function PieceTexts(pieces: seq<Cut.Piece>): seq<char> {
    if pieces == [] then [] else PieceTexts(pieces[..|pieces| - 1]) + pieces[|pieces| - 1].text
  }

  function CutTexts(fields: seq<Cut.Field>): seq<char> {
    if fields == [] then [] else CutTexts(fields[..|fields| - 1]) + fields[|fields| - 1].text
  }

  lemma CutTextsPush(fields: seq<Cut.Field>, f: Cut.Field)
    ensures CutTexts(fields + [f]) == CutTexts(fields) + f.text
  {
    assert (fields + [f])[..|fields|] == fields;
  }

  lemma {:induction false} PiecesEncode(head: Tag -> Cut.Head, items: seq<Item>)
    requires forall i :: 0 <= i < |items| ==> WellFormed(items[i].text)
    ensures Encoded(PieceTexts(PiecesOf(head, items))) == ItemTexts(items)
  {
    var pieces := PiecesOf(head, items);
    if items == [] {
      assert EncodeAll([]) == [];
    } else {
      var front, last := items[..|items| - 1], items[|items| - 1];
      assert pieces[..|pieces| - 1] == PiecesOf(head, front) && pieces[|pieces| - 1] == PieceOf(head, last);
      hide WellFormed, Encoded, CharactersOf, PiecesOf;
      PiecesEncode(head, front);
      EncodedParts(PieceTexts(PiecesOf(head, front)), CharactersOf(last.text));
      CharactersEncodeTo(last.text);
    }
  }

  lemma CharactersEncodeTo(bytes: seq<byte>)
    requires WellFormed(bytes)
    ensures Encoded(CharactersOf(bytes)) == bytes
  {
    CharactersEncode(bytes);
  }

  lemma {:induction false} FieldsKeepText(pieces: seq<Cut.Piece>)
    ensures CutTexts(Cut.Everything(Cut.FieldsOf(pieces))) == PieceTexts(pieces)
  {
    if pieces != [] {
      var front, p := pieces[..|pieces| - 1], pieces[|pieces| - 1];
      FieldsKeepText(front);
      JoinedKeepsText(Cut.FieldsOf(front), p);
    }
  }

  lemma JoinedKeepsText(f: Cut.Fields, p: Cut.Piece)
    ensures CutTexts(Cut.Everything(Cut.Joined(f, p))) == CutTexts(Cut.Everything(f)) + p.text
  {
    hide CutTexts;
    if Cut.Continues(f, p) {
      var open := f.open.value;
      var longer := open.(text := open.text + p.text);
      CutTextsPush(f.closed, open);
      CutTextsPush(f.closed, longer);
      assert CutTexts(f.closed) + (open.text + p.text) == CutTexts(f.closed) + open.text + p.text;
    } else {
      CutTextsPush(Cut.Everything(f), Cut.Field(p.head, p.logical, p.text));
      assert Cut.Everything(f) + [Cut.Field(p.head, p.logical, p.text)] + [] == Cut.Everything(f) + [Cut.Field(p.head, p.logical, p.text)];
    }
  }

  lemma {:induction false} TextsOfParts<H>(a: seq<Chunk<H>>, b: seq<Chunk<H>>)
    ensures Texts(a + b) == Texts(a) + Texts(b)
    decreases |b|
  {
    if b == [] {
      assert a + b == a;
    } else {
      var front, last := b[..|b| - 1], b[|b| - 1];
      assert (a + b)[..|a + b| - 1] == a + front && (a + b)[|a + b| - 1] == last;
      TextsOfParts(a, front);
    }
  }

  lemma LastRendered(u: Unicode, chunks: seq<Chunk<Cut.Head>>, front: seq<Cut.Field>, f: Cut.Field)
    returns (before: seq<Chunk<Cut.Head>>, last: seq<Chunk<Cut.Head>>)
    requires Cut.Renders(u, chunks, front + [f])
    ensures chunks == before + last && Cut.Renders(u, before, front) && Cut.ChunksOf(u, last, f)
  {
    hide Cut.ChunksOf;
    var fields := front + [f];
    assert fields[..|fields| - 1] == front;
    var k: nat :| k <= |chunks| && Cut.ChunksOf(u, chunks[k..], f) && Cut.Renders(u, chunks[..k], front);
    before, last := chunks[..k], chunks[k..];
  }

  lemma ChunksTexts(u: Unicode, chunks: seq<Chunk<Cut.Head>>, f: Cut.Field)
    requires Cut.ChunksOf(u, chunks, f)
    ensures Texts(chunks) == f.text
  {}

  lemma {:induction false} ChunksKeepText(u: Unicode, chunks: seq<Chunk<Cut.Head>>, fields: seq<Cut.Field>)
    requires Cut.Renders(u, chunks, fields)
    ensures Texts(chunks) == CutTexts(fields)
    decreases |fields|
  {
    hide Cut.ChunksOf;
    if fields != [] {
      var front, f := fields[..|fields| - 1], fields[|fields| - 1];
      assert fields == front + [f];
      hide Cut.Renders, Texts;
      var before, last := LastRendered(u, chunks, front, f);
      ChunksKeepText(u, before, front);
      ChunksTexts(u, last, f);
      TextsOfParts(before, last);
    }
  }

  // ---------------------------------------------------------------- one record

  /** The items of a record, de-duplicated and cut: each field that is let through becomes chunks that
      carry exactly its terms, and all chunks together are the text of the fields that are let
      through, byte for byte; of equal fields only the first, exactly when no field with text went by
      unrecorded that comes again. */
  method StoreFields(hash: seq<byte> -> seq<byte>, u: Unicode, head: Tag -> Cut.Head, items: seq<Item>)
    returns (kept: seq<Item>, chunks: seq<Chunk<Cut.Head>>)
    requires SaneText(u) && forall i :: 0 <= i < |items| ==> WellFormed(items[i].text)
    ensures var fields := FieldLog.All(Group(items));
      && Dedup.Renders(kept, Logged(fields, false).emitted)
      && Cut.Renders(u, chunks, Cut.Everything(Cut.FieldsOf(PiecesOf(head, kept))))
      && Encoded(Texts(chunks)) == FieldTexts(Logged(fields, false).emitted)
      && (Encoded(Texts(chunks)) == FieldTexts(Distinct(fields)) <==> !AnyVisibleRepeat(fields, false))
  {
    hide WellFormed, Dedup.Renders, Group, Logged, Distinct, AnyVisibleRepeat, Cut.Renders, Cut.FieldsOf, PiecesOf, Encoded, SaneText;
    kept := Dedup.Collect(hash, items);
    var pieces := PiecesOf(head, kept);
    chunks := Cut.CutAll(u, pieces);
    ghost var fields := FieldLog.All(Group(items));
    ChunksKeepText(u, chunks, Cut.Everything(Cut.FieldsOf(pieces)));
    FieldsKeepText(pieces);
    Dedup.RendersTexts(kept, Logged(fields, false).emitted);
    Dedup.GroupIsWellFormed(items);
    EmittedAreFields(fields, false);
    Dedup.RendersWellFormed(kept, Logged(fields, false).emitted);
    PiecesEncode(head, kept);
    LoggedShows(fields, false);
    ShownTexts(Logged(fields, false).emitted);
    ShownTexts(Distinct(fields));
  }
}
