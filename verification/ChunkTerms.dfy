/** Which terms the chunks of a text carry, and what the store makes of them. */
module ChunkTerms {
  import opened Options
  import opened WordForms
  import opened RunSplit
  import opened Tokenizer
  import opened OpenTerms
  import opened Chunks

  // ---------------------------------------------------------------- where terms are

  /** The first `i` chunks carry the terms that their text has given. */
  ghost predicate PlacedAt<H>(u: Unicode, chunks: seq<Chunk<H>>, i: nat)
    requires i <= |chunks|
  {
    Terms(chunks[..i]) == SoFar(u, Texts(chunks[..i]))
  }

  /** A term is in the chunk whose text completes it, or in the last if only the end does. */
  ghost predicate Placed<H>(u: Unicode, chunks: seq<Chunk<H>>) {
    forall i :: 0 <= i < |chunks| ==> PlacedAt(u, chunks, i)
  }

  /** While the text goes on, also the last chunk carries no more than its text has given. */
  ghost predicate PlacedSoFar<H>(u: Unicode, chunks: seq<Chunk<H>>) {
    Placed(u, chunks) && PlacedAt(u, chunks, |chunks|)
  }

  lemma NothingPlaced<H>(u: Unicode, chunks: seq<Chunk<H>>)
    requires chunks == []
    ensures PlacedSoFar(u, chunks)
  {
    NothingOpen(u);
    NothingOfNothing(u);
    assert chunks[..0] == [];
  }

  lemma PlacedPush<H>(u: Unicode, chunks: seq<Chunk<H>>, text: seq<char>, terms: seq<Term>, whole: seq<char>, emitted: seq<Term>, head: H)
    requires PlacedSoFar(u, chunks) && Cutting(chunks, text, terms, whole, emitted)
    ensures Placed(u, chunks + [MakeChunk(text, terms, head)])
    ensures emitted == SoFar(u, whole) ==> PlacedSoFar(u, chunks + [MakeChunk(text, terms, head)])
  {
    var c := MakeChunk(text, terms, head);
    var all := chunks + [c];
    assert TermsIn(c) == terms;
    assert all[..|all|] == all && all[..|chunks|] == chunks;
    hide SoFar, Proper, MakeChunk;
    assert Texts(all) == whole && Terms(all) == emitted;
    hide Texts, Terms;
    forall i | 0 <= i <= |chunks| ensures PlacedAt(u, all, i) {
      assert PlacedAt(u, chunks, i);
      assert all[..i] == chunks[..i];
    }
  }

  /** A chunk before the last, inside the first word of a text, carries no terms. */
  lemma NoTermsBefore<H>(u: Unicode, chunks: seq<Chunk<H>>)
    requires Placed(u, chunks) && |chunks| > 1 && SoFar(u, chunks[0].text) == []
    ensures TermsIn(chunks[0]) == []
  {
    assert PlacedAt(u, chunks, 1);
    hide SoFar, Placed;
    FirstAlone(chunks);
  }

  lemma FirstAlone<H>(chunks: seq<Chunk<H>>)
    requires chunks != []
    ensures Texts(chunks[..1]) == chunks[0].text && Terms(chunks[..1]) == TermsIn(chunks[0])
  {
    var one := [chunks[0]];
    assert chunks[..1] == one && one[..0] == [];
    assert [] + chunks[0].text == chunks[0].text && [] + TermsIn(chunks[0]) == TermsIn(chunks[0]);
  }

  // ---------------------------------------------------------------- what the store makes of chunks

  /** The store takes a chunk without terms for one that has not been tokenized, and tokenizes it. */
  function Indexed<H>(u: Unicode, c: Chunk<H>): seq<Term> {
    if c.terms.Some? then c.terms.value else Tokens(u, c.text)
  }

  function IndexedAll<H>(u: Unicode, chunks: seq<Chunk<H>>): seq<Term> {
    if chunks == [] then [] else IndexedAll(u, chunks[..|chunks| - 1]) + Indexed(u, chunks[|chunks| - 1])
  }

  /** Every chunk that holds a letter or a digit carries terms. */
  ghost predicate NothingToAdd<H>(u: Unicode, chunks: seq<Chunk<H>>) {
    forall i :: 0 <= i < |chunks| && chunks[i].terms.None? ==> !HasAlphanumeric(u, chunks[i].text)
  }

  /** The store indexes what the chunks carry exactly when every chunk with a letter or a digit carries terms. */
  lemma {:induction false} StoreAddsNothingExactlyWhen<H>(u: Unicode, chunks: seq<Chunk<H>>)
    requires SaneText(u)
    ensures |Terms(chunks)| <= |IndexedAll(u, chunks)|
    ensures IndexedAll(u, chunks) == Terms(chunks) <==> NothingToAdd(u, chunks)
  {
    hide Tokens, Terms, IndexedAll, NothingToAdd, HasAlphanumeric, SaneText;
    if chunks == [] {
      IndexedNone(u, chunks);
    } else {
      var front, last := chunks[..|chunks| - 1], chunks[|chunks| - 1];
      StoreAddsNothingExactlyWhen(u, front);
      IndexedLast(u, chunks);
      TermsExactlyWhen(u, last.text);
      SameEnd(IndexedAll(u, front), Terms(front), Indexed(u, last), TermsIn(last));
    }
  }

  lemma IndexedNone<H>(u: Unicode, chunks: seq<Chunk<H>>)
    requires chunks == []
    ensures Terms(chunks) == [] && IndexedAll(u, chunks) == [] && NothingToAdd(u, chunks)
  {}

  lemma IndexedLast<H>(u: Unicode, chunks: seq<Chunk<H>>)
    requires chunks != []
    ensures var front, last := chunks[..|chunks| - 1], chunks[|chunks| - 1];
      && Terms(chunks) == Terms(front) + TermsIn(last)
      && IndexedAll(u, chunks) == IndexedAll(u, front) + Indexed(u, last)
      && (NothingToAdd(u, chunks) <==> NothingToAdd(u, front) && (last.terms.None? ==> !HasAlphanumeric(u, last.text)))
  {
    hide Tokens, HasAlphanumeric;
    var front, last := chunks[..|chunks| - 1], chunks[|chunks| - 1];
    assert chunks == front + [last];
    NothingToAddPush(u, front, last);
  }

  lemma NothingToAddPush<H>(u: Unicode, front: seq<Chunk<H>>, last: Chunk<H>)
    ensures NothingToAdd(u, front + [last]) <==> NothingToAdd(u, front) && (last.terms.None? ==> !HasAlphanumeric(u, last.text))
  {
    hide HasAlphanumeric;
    var all := front + [last];
    assert all[|front|] == last && forall i :: 0 <= i < |front| ==> all[i] == front[i];
  }

  lemma SameEnd(x: seq<Term>, y: seq<Term>, more: seq<Term>, less: seq<Term>)
    requires |y| <= |x| && (less == more || less == [])
    ensures x + more == y + less <==> x == y && more == less
  {
    if x + more == y + less {
      assert |x| + |more| == |y| + |less|;
      assert x == (x + more)[..|x|] && y == (y + less)[..|y|];
      assert more == (x + more)[|x|..] && less == (y + less)[|y|..];
    }
  }

  // ---------------------------------------------------------------- words of one component

  /** A word without capitals and underscores has nothing to be cut at. */
  predicate PlainWord(u: Unicode, w: seq<char>) {
    forall i :: 0 <= i < |w| ==> u.alphanumeric(w[i]) && !u.upper(w[i])
  }

  lemma {:induction false} PlainTrack(u: Unicode, w: seq<char>)
    requires SaneText(u) && PlainWord(u, w)
    ensures TrackOf(u, w).closed == [] && (w != [] ==> TrackOf(u, w).pending == Some(w[|w| - 1]))
  {
    if w != [] {
      PlainTrack(u, w[..|w| - 1]);
    }
  }

  lemma {:induction false} PlainParts(u: Unicode, w: seq<char>)
    requires SaneText(u) && PlainWord(u, w)
    ensures PartsOf(u, w) == Parts([], w, w)
  {
    if w == [] {
      NothingOpen(u);
    } else {
      var front, c := w[..|w| - 1], w[|w| - 1];
      assert front + [c] == w && IsWord(u, c);
      hide PartsOf, RunTerms;
      PlainParts(u, front);
      PartsPush(u, front, c);
    }
  }

  lemma PlainRunGivesNothing(u: Unicode, w: seq<char>)
    requires SaneText(u) && PlainWord(u, w)
    ensures RunSoFar(u, w) == []
  {
    PlainTrack(u, w);
    assert TermsOf(u, []) == [];
  }

  /** It gives nothing before it ends. */
  lemma PlainGivesNothing(u: Unicode, w: seq<char>)
    requires SaneText(u) && PlainWord(u, w)
    ensures SoFar(u, w) == []
  {
    hide PartsOf, RunSoFar;
    PlainParts(u, w);
    PlainRunGivesNothing(u, w);
  }

  lemma PlainHas(u: Unicode, w: seq<char>)
    requires PlainWord(u, w)
    ensures HasAlphanumeric(u, w) <==> w != []
  {
    if w != [] { assert u.alphanumeric(w[0]); }
  }

  function Letters(n: nat): seq<char> {
    seq(n, i => 'a')
  }

  /** There are such words of every length. */
  lemma {:induction false} LettersArePlain(u: Unicode, n: nat)
    requires u.alphanumeric('a') && !u.upper('a')
    ensures PlainWord(u, Letters(n)) && Size(Letters(n)) == n
  {
    if n > 0 {
      assert Letters(n)[..n - 1] == Letters(n - 1);
      LettersArePlain(u, n - 1);
    }
  }
}
