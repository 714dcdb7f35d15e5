/** Chunks of text: bounded, never empty, together the whole text and all of its terms. */
module Chunks {
  import opened Options
  import opened WordForms

  const MAX_CHUNK_BYTES := 16 * 1024

  /** The length of a character's encoding. */
  function Len(c: char): (n: nat)
    ensures 1 <= n <= 4
  {
    if c as int < 0x80 then 1 else if c as int < 0x800 then 2 else if c as int < 0x10000 then 3 else 4
  }

  function Size(text: seq<char>): nat {
    if text == [] then 0 else Size(text[..|text| - 1]) + Len(text[|text| - 1])
  }

  lemma SizePush(text: seq<char>, c: char)
    ensures Size(text + [c]) == Size(text) + Len(c)
  {
    assert (text + [c])[..|text|] == text;
  }

  /** A chunk that has no terms of its own carries none at all. */
  datatype Chunk<H> = Chunk(text: seq<char>, terms: Option<seq<Term>>, head: H)

  function Texts<H>(chunks: seq<Chunk<H>>): seq<char> {
    if chunks == [] then [] else Texts(chunks[..|chunks| - 1]) + chunks[|chunks| - 1].text
  }

  function TermsIn<H>(c: Chunk<H>): seq<Term> {
    if c.terms.Some? then c.terms.value else []
  }

  function Terms<H>(chunks: seq<Chunk<H>>): seq<Term> {
    if chunks == [] then [] else Terms(chunks[..|chunks| - 1]) + TermsIn(chunks[|chunks| - 1])
  }

  /** Chunks are bounded and never empty, and an empty list of terms is none at all. */
  ghost predicate Proper<H>(chunks: seq<Chunk<H>>) {
    forall i :: 0 <= i < |chunks| ==> 0 < Size(chunks[i].text) <= MAX_CHUNK_BYTES && chunks[i].terms != Some([])
  }

  /** Chunks cut off so far, with the text and the terms of the next. */
  ghost predicate Cutting<H>(chunks: seq<Chunk<H>>, text: seq<char>, terms: seq<Term>, whole: seq<char>, emitted: seq<Term>) {
    && Proper(chunks) && Size(text) <= MAX_CHUNK_BYTES
    && Texts(chunks) + text == whole
    && Terms(chunks) + terms == emitted
  }

  /** The first character of what follows does not fit any more. */
  predicate NoRoom(text: seq<char>, next: seq<char>) {
    next != [] ==> Size(text) + Len(next[0]) > MAX_CHUNK_BYTES
  }

  /** No chunk ends while what follows would still fit, be it in the next chunk or waiting. */
  ghost predicate Tight<H>(chunks: seq<Chunk<H>>, waiting: seq<char>) {
    && (forall i, j :: 0 <= i && j == i + 1 < |chunks| ==> NoRoom(chunks[i].text, chunks[j].text))
    && (chunks != [] ==> NoRoom(chunks[|chunks| - 1].text, waiting))
  }

  lemma TightPush<H>(chunks: seq<Chunk<H>>, text: seq<char>, c: Chunk<H>, next: seq<char>)
    requires Tight(chunks, text) && c.text == text && NoRoom(text, next)
    ensures Tight(chunks + [c], next)
  {
    hide Size, Len, NoRoom;
    var all := chunks + [c];
    forall i, j | 0 <= i && j == i + 1 < |all| ensures NoRoom(all[i].text, all[j].text) {
      assert all[i] == chunks[i];
      if j < |chunks| {
        assert all[j] == chunks[j];
      }
    }
  }

  lemma TightGrows<H>(chunks: seq<Chunk<H>>, text: seq<char>, c: char)
    requires Tight(chunks, text) && (text == [] ==> chunks == [])
    ensures Tight(chunks, text + [c])
  {
    hide Size, Len;
  }

  lemma NothingTight<H>(chunks: seq<Chunk<H>>)
    requires chunks == []
    ensures Tight(chunks, [])
  {}

  function MakeChunk<H>(text: seq<char>, terms: seq<Term>, head: H): Chunk<H> {
    Chunk(text, if terms == [] then None else Some(terms), head)
  }

  lemma Cut<H>(chunks: seq<Chunk<H>>, text: seq<char>, terms: seq<Term>, whole: seq<char>, emitted: seq<Term>, head: H)
    requires Cutting(chunks, text, terms, whole, emitted) && text != []
    ensures Cutting(chunks + [MakeChunk(text, terms, head)], [], [], whole, emitted)
  {
    var c := MakeChunk(text, terms, head);
    var all := chunks + [c];
    assert all[..|chunks|] == chunks && all[|chunks|] == c;
    assert TermsIn(c) == terms;
    assert Texts(all) + [] == Texts(chunks) + text && Terms(all) + [] == Terms(chunks) + terms;
    assert Size(text) > 0;
    assert Size([]) == 0;
  }

  /** One character more, with the terms it completes. */
  lemma Grow<H>(chunks: seq<Chunk<H>>, text: seq<char>, terms: seq<Term>, whole: seq<char>, emitted: seq<Term>, c: char, more: seq<Term>)
    requires Cutting(chunks, text, terms, whole, emitted) && Size(text) + Len(c) <= MAX_CHUNK_BYTES
    ensures Cutting(chunks, text + [c], terms + more, whole + [c], emitted + more)
  {
    SizePush(text, c);
    var x, y, v, w := Texts(chunks), text, Terms(chunks), terms;
    hide Texts, Terms, Size;
    assert x + (y + [c]) == x + y + [c];
    assert v + (w + more) == v + w + more;
  }
}
