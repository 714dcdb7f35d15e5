/** The query side of tokenization: the same terms as the index has, the last of every occurrence
    first, and for every occurrence its surface. */
module QueryTerms {
  import opened Bytes
  import opened WordForms
  import opened RunSplit
  import opened Tokenizer
  import opened OpenTerms

  /** The last term of an occurrence, which is its longest form, comes first. */
  function WholeFirst(terms: seq<Term>): seq<Term> {
    if terms == [] then [] else [terms[|terms| - 1]] + terms[..|terms| - 1]
  }

  predicate IsSeparatorByte(b: byte) {
    b == 0x2D || b == 0x2E || b == 0x3A || b == 0x2F || b == 0x5C
  }

  function TrimEnd(term: Term): Term {
    if term != [] && IsSeparatorByte(term[|term| - 1]) then TrimEnd(term[..|term| - 1]) else term
  }

  function SurfaceOf(terms: seq<Term>): seq<Term> {
    if terms == [] then [] else [TrimEnd(terms[|terms| - 1])]
  }

  /** What a query gets for the occurrences of a text. */
  function QueryTermsOf(u: Unicode, occurrences: seq<seq<char>>): seq<Term> {
    if occurrences == [] then []
    else
      QueryTermsOf(u, occurrences[..|occurrences| - 1]) + WholeFirst(OccurrenceTerms(u, occurrences[|occurrences| - 1]))
  }

  function SurfacesOf(u: Unicode, occurrences: seq<seq<char>>): seq<Term> {
    if occurrences == [] then []
    else
      SurfacesOf(u, occurrences[..|occurrences| - 1]) + SurfaceOf(OccurrenceTerms(u, occurrences[|occurrences| - 1]))
  }

  /** Index and query agree on the terms of a text, each as often. */
  lemma {:induction false} QueryMatchesIndex(u: Unicode, occurrences: seq<seq<char>>)
    ensures multiset(QueryTermsOf(u, occurrences)) == multiset(AllOccurrenceTerms(u, occurrences))
  {
    hide OccurrenceTerms;
    if occurrences != [] {
      QueryMatchesIndex(u, occurrences[..|occurrences| - 1]);
      WholeFirstKeepsAll(OccurrenceTerms(u, occurrences[|occurrences| - 1]));
    }
  }

  lemma WholeFirstKeepsAll(terms: seq<Term>)
    ensures multiset(WholeFirst(terms)) == multiset(terms)
  {
    if terms != [] {
      assert terms == terms[..|terms| - 1] + [terms[|terms| - 1]];
    }
  }

  // ---------------------------------------------------------------- the whole comes first

  /** The complete form of an occurrence: all of it, but for a separator that only ends it. */
  function WholeOf(u: Unicode, occurrence: seq<char>): Term {
    TermOf(u, if HasSeparator(occurrence) then Trimmed(occurrence) else occurrence)
  }

  /** An occurrence with a letter or a digit: a compound, or a run of which no component has its term. */
  ghost predicate HasWhole(u: Unicode, occurrence: seq<char>) {
    && HasAlphanumeric(u, occurrence)
    && (!HasSeparator(occurrence) ==>
          && Worded(u, occurrence) && FoldsAll(u, occurrence)
          && (Length(u, occurrence) <= MAX_TERM_BYTES || TellsWhole(u, occurrence)))
  }

  /** A query gets the complete form of each occurrence before its components, and as its surface the
      complete form without the separators at its end, never a component. */
  lemma WholeComesFirst(u: Unicode, occurrence: seq<char>)
    requires SaneText(u) && HasWhole(u, occurrence)
    ensures var terms := OccurrenceTerms(u, occurrence);
      && terms != [] && WholeFirst(terms)[0] == WholeOf(u, occurrence)
      && SurfaceOf(terms) == [TrimEnd(WholeOf(u, occurrence))]
  {
    hide TermOf, Trimmed, TrimEnd, AllRunTerms, FoldsAll, TellsWhole, Length, HasAlphanumeric, HasSeparator, RunTerms;
    if !HasSeparator(occurrence) {
      RunEndsWithWhole(u, occurrence);
      OneRun(u, occurrence);
    }
  }

  lemma OneRun(u: Unicode, run: seq<char>)
    requires !HasSeparator(run) && run != []
    ensures OccurrenceTerms(u, run) == RunTerms(u, run)
  {
    Unseparated(u, run);
    hide RunTerms, Split, HasSeparator;
    assert All(Pieces([], run)) == [run];
    assert [run][..0] == [] && AllRunTerms(u, []) == [];
    assert AllRunTerms(u, [run]) == [] + RunTerms(u, run);
  }

  lemma {:induction false} Unseparated(u: Unicode, run: seq<char>)
    requires !HasSeparator(run)
    ensures Runs(u, run) == Pieces([], run)
  {
    if run != [] {
      var front, c := run[..|run| - 1], run[|run| - 1];
      assert run == front + [c];
      HasPush(u, front, c);
      hide HasSeparator;
      Unseparated(u, front);
    }
  }

  lemma RunEndsWithWhole(u: Unicode, run: seq<char>)
    requires SaneText(u) && HasWhole(u, run) && !HasSeparator(run)
    ensures run != [] && RunTerms(u, run) != [] && RunTerms(u, run)[|RunTerms(u, run)| - 1] == TermOf(u, run)
  {
    assert Sane(u);
    UnpackWhole(u, run);
    NoneHas(u);
    hide *;
    WordedIsBlank(u, run);
    WholeIsNew(u, run);
    RunTermsAre(u, run);
    TermsToCome(u, run);
    LastIsWhole(TermsOf(u, TrackOf(u, run).closed), TermsOf(u, ToCome(u, run)), TermOf(u, run));
  }

  lemma UnpackWhole(u: Unicode, run: seq<char>)
    requires HasWhole(u, run) && !HasSeparator(run)
    ensures HasAlphanumeric(u, run) && Worded(u, run) && FoldsAll(u, run) && (Length(u, run) <= MAX_TERM_BYTES || TellsWhole(u, run))
  {}

  /** What is still to come ends with the whole, behind no more than one component. */
  lemma TermsToCome(u: Unicode, run: seq<char>)
    requires !Blank(run)
    ensures var more := TermsOf(u, ToCome(u, run)); 1 <= |more| <= 2 && more[|more| - 1] == TermOf(u, run)
  {
    hide TrackOf, TermOf, Blank;
  }

  lemma LastIsWhole(a: seq<Term>, more: seq<Term>, whole: Term)
    requires 1 <= |more| <= 2 && more[|more| - 1] == whole && whole !in a
    ensures var all := FirstOccurrences(a + more); all != [] && all[|all| - 1] == whole
  {
    hide FirstOccurrences;
    if |more| == 1 {
      assert a + more == a + [whole];
      FirstOccurrencesPush(a, whole);
    } else {
      assert a + more == a + [more[0]] + [whole];
      FirstOccurrencesPush(a + [more[0]], whole);
      FirstOccurrencesPush(a, more[0]);
    }
  }

  // ---------------------------------------------------------------- one occurrence more

  lemma QueryPush(u: Unicode, closed: seq<seq<char>>, open: seq<char>)
    ensures QueryTermsOf(u, closed + [open]) == QueryTermsOf(u, closed) + WholeFirst(OccurrenceTerms(u, open))
    ensures SurfacesOf(u, closed + [open]) == SurfacesOf(u, closed) + SurfaceOf(OccurrenceTerms(u, open))
  {
    hide OccurrenceTerms;
    assert (closed + [open])[..|closed|] == closed;
  }

  method AppendOccurrence(terms: seq<Term>, surfaces: seq<Term>, occurrence: seq<Term>, ghost u: Unicode, ghost closed: seq<seq<char>>, ghost open: seq<char>)
    returns (terms': seq<Term>, surfaces': seq<Term>)
    requires terms == QueryTermsOf(u, closed) && surfaces == SurfacesOf(u, closed)
    requires occurrence == if open == [] then [] else OccurrenceTerms(u, open)
    ensures var all := All(Pieces(closed, open)); terms' == QueryTermsOf(u, all) && surfaces' == SurfacesOf(u, all)
  {
    hide QueryTermsOf, SurfacesOf, OccurrenceTerms, TrimEnd;
    QueryPush(u, closed, open);
    terms', surfaces' := terms, surfaces;
    if occurrence != [] {
      terms' := terms + [occurrence[|occurrence| - 1]] + occurrence[..|occurrence| - 1];
      surfaces' := surfaces + [TrimEnd(occurrence[|occurrence| - 1])];
    }
    assert terms' == terms + WholeFirst(occurrence) && surfaces' == surfaces + SurfaceOf(occurrence);
    assert open == [] ==> All(Pieces(closed, open)) == closed;
  }

  /** Where an occurrence ends, what was emitted since the last one ended is its terms. */
  lemma OccurrenceEnds(u: Unicode, p: Pieces, occurrence: seq<Term>, emitted: seq<Term>)
    requires emitted == AllOccurrenceTerms(u, p.closed) + occurrence && emitted == AllOccurrenceTerms(u, All(p))
    ensures occurrence == if p.open == [] then [] else OccurrenceTerms(u, p.open)
  {
    AllOccurrenceTermsOfAll(u, p);
    hide AllOccurrenceTerms, OccurrenceTerms, All;
    var x, y := AllOccurrenceTerms(u, p.closed), if p.open == [] then [] else OccurrenceTerms(u, p.open);
    assert (x + occurrence)[|x|..] == occurrence && (x + y)[|x|..] == y;
  }

  method TokenizeWithSurfaces(u: Unicode, text: seq<char>) returns (terms: seq<Term>, surfaces: seq<Term>)
    requires SaneText(u)
    ensures terms == QueryTermsOf(u, All(Surfaces(u, text))) && surfaces == SurfacesOf(u, All(Surfaces(u, text)))
    ensures multiset(terms) == multiset(Tokens(u, text))
  {
    hide SaneText, Hears, AllOccurrenceTerms, OccurrenceTerms, QueryTermsOf, SurfacesOf, Split, All, IsDelimiter;
    var tokenizer;
    ghost var footprint, emitted: seq<Term>;
    tokenizer, footprint := NewTokenizer(u);
    terms, surfaces, emitted := [], [], [];
    var occurrence: seq<Term> := [];
    NothingYet(u);
    for i := 0 to |text|
      invariant Hears(tokenizer, footprint, u, text[..i], emitted) && fresh(footprint)
      invariant var closed := Surfaces(u, text[..i]).closed;
        && emitted == AllOccurrenceTerms(u, closed) + occurrence
        && terms == QueryTermsOf(u, closed) && surfaces == SurfacesOf(u, closed)
    {
      ghost var before, p := text[..i], Surfaces(u, text[..i]);
      assert text[..i + 1] == before + [text[i]];
      var more;
      more, footprint := Hear(tokenizer, footprint, u, before, emitted, text[i]);
      emitted, occurrence := emitted + more, occurrence + more;
      SplitPush(Occurrences(u), before, text[i]);
      if IsDelimiter(u, text[i]) {
        AtDelimiter(tokenizer, footprint, u, text[..i + 1], emitted);
        assert All(Surfaces(u, text[..i + 1])) == All(p) by { AllOfClosed(All(p)); }
        OccurrenceEnds(u, p, occurrence, emitted);
        terms, surfaces := AppendOccurrence(terms, surfaces, occurrence, u, p.closed, p.open);
        occurrence := [];
        assert p == Pieces(p.closed, p.open);
      }
    }
    assert text[..|text|] == text;
    var last := HearEnd(tokenizer, footprint, u, text, emitted);
    ghost var p := Surfaces(u, text);
    occurrence := occurrence + last;
    OccurrenceEnds(u, p, occurrence, emitted + last);
    terms, surfaces := AppendOccurrence(terms, surfaces, occurrence, u, p.closed, p.open);
    assert p == Pieces(p.closed, p.open);
    QueryMatchesIndex(u, All(p));
  }

  lemma NothingYet(u: Unicode)
    ensures Surfaces(u, []) == Pieces([], []) && AllOccurrenceTerms(u, []) == [] && QueryTermsOf(u, []) == [] && SurfacesOf(u, []) == []
  {}

  lemma AllOfClosed(closed: seq<seq<char>>)
    ensures All(Pieces(closed, [])) == closed
  {}
}
