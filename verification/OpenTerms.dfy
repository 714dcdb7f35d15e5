/** What a tokenizer has given of a text that has not ended, as a function of the text, and when
    that is already everything. */
module OpenTerms {
  import opened Options
  import opened Bytes
  import opened Collections
  import opened WordForms
  import opened RunSplit
  import opened Tokenizer

  // ---------------------------------------------------------------- a run under way

  function TrackOf(u: Unicode, run: seq<char>): Track {
    if run == [] then Track([], [], None) else NextTrack(u, TrackOf(u, run[..|run| - 1]), run[|run| - 1])
  }

  lemma TrackOfPush(u: Unicode, run: seq<char>, c: char)
    ensures TrackOf(u, run + [c]) == NextTrack(u, TrackOf(u, run), c)
  {
    assert (run + [c])[..|run|] == run;
  }

  lemma {:induction false} TracksItself(u: Unicode, run: seq<char>)
    requires Sane(u)
    ensures Tracks(u, run, TrackOf(u, run))
  {
    if run != [] {
      var front, c := run[..|run| - 1], run[|run| - 1];
      assert run == front + [c];
      hide Tracks, NextTrack;
      TracksItself(u, front);
      TracksPush(u, front, TrackOf(u, front), c);
      TrackOfPush(u, front, c);
    }
  }

  /** The terms of the components that have been closed. */
  function RunSoFar(u: Unicode, run: seq<char>): seq<Term> {
    FirstOccurrences(TermsOf(u, TrackOf(u, run).closed))
  }

  // ---------------------------------------------------------------- blank runs

  lemma {:induction false} BlankTrack(u: Unicode, run: seq<char>)
    requires Blank(run)
    ensures TrackOf(u, run) == Track([], [], None)
  {
    if run != [] {
      BlankTrack(u, run[..|run| - 1]);
    }
  }

  /** A run has terms exactly when it is not all underscores. */
  lemma BlankHasNoTerms(u: Unicode, run: seq<char>)
    requires Sane(u)
    ensures RunTerms(u, run) == [] <==> Blank(run)
    ensures Blank(run) ==> RunSoFar(u, run) == []
  {
    var whole := if Blank(run) then [] else [TermOf(u, run)];
    FirstOccurrencesKeepsAll(TermsOf(u, Components(u, run)) + whole);
    if Blank(run) {
      BlankTrack(u, run);
      TracksItself(u, run);
      TracksFinish(u, run, TrackOf(u, run));
      hide Components;
      assert TermsOf(u, []) == [];
    } else {
      hide *;
      assert TermOf(u, run) in TermsOf(u, Components(u, run)) + [TermOf(u, run)];
    }
  }

  // ---------------------------------------------------------------- texts without terms

  predicate Worded(u: Unicode, s: seq<char>) {
    forall i :: 0 <= i < |s| ==> IsWord(u, s[i])
  }

  lemma WordedIsBlank(u: Unicode, run: seq<char>)
    requires SaneText(u) && Worded(u, run)
    ensures Blank(run) <==> !HasAlphanumeric(u, run)
  {
    if !Blank(run) {
      var i :| 0 <= i < |run| && run[i] != '_';
      assert IsWord(u, run[i]);
    }
  }

  /** The open run is made of word characters, and is the whole of a surface without separators. */
  ghost predicate Shaped(u: Unicode, p: Parts) {
    && Worded(u, p.run)
    && (HasAlphanumeric(u, p.run) ==> HasAlphanumeric(u, p.surface))
    && (!HasSeparator(p.surface) ==> p.run == p.surface)
  }

  lemma ShapedPush(u: Unicode, p: Parts, c: char)
    requires SaneText(u) && Shaped(u, p)
    ensures Shaped(u, NextParts(u, p, c))
  {
    HasPush(u, p.run, c);
    HasPush(u, p.surface, c);
    hide RunTerms, SurfaceTerms, HasAlphanumeric, HasSeparator;
    assert !HasAlphanumeric(u, []) by { NoneHas(u); }
  }

  lemma NoneHas(u: Unicode)
    ensures !HasAlphanumeric(u, []) && !HasSeparator([])
  {}

  lemma {:induction false} PartsAreShaped(u: Unicode, text: seq<char>)
    requires SaneText(u)
    ensures Shaped(u, PartsOf(u, text))
  {
    if text == [] {
      NothingOpen(u);
    } else {
      var front, c := text[..|text| - 1], text[|text| - 1];
      assert text == front + [c];
      hide Shaped, PartsOf, NextParts;
      PartsAreShaped(u, front);
      PartsPush(u, front, c);
      ShapedPush(u, PartsOf(u, front), c);
    }
  }

  /** What closing the open parts adds: nothing exactly when they hold no letter or digit. */
  lemma ClosingAdds(u: Unicode, p: Parts)
    requires SaneText(u) && Shaped(u, p)
    ensures RunPart(u, p.run) + SurfacePart(u, p.surface) == [] <==> !HasAlphanumeric(u, p.surface)
    ensures !HasAlphanumeric(u, p.surface) ==> RunPart(u, p.run) == [] && SurfacePart(u, p.surface) == []
  {
    NoneHas(u);
    hide RunTerms, HasAlphanumeric, HasSeparator;
    BlankHasNoTerms(u, p.run);
    WordedIsBlank(u, p.run);
  }

  lemma {:induction false} NoTermsYet(u: Unicode, text: seq<char>)
    requires SaneText(u)
    ensures var p := PartsOf(u, text);
      p.closedTerms == [] && !HasAlphanumeric(u, p.surface) <==> !HasAlphanumeric(u, text)
    decreases |text|
  {
    if text == [] {
      NothingOpen(u);
    } else {
      var front, c := text[..|text| - 1], text[|text| - 1];
      assert text == front + [c];
      NoneHas(u);
      HasPush(u, front, c);
      var p := PartsOf(u, front);
      HasPush(u, p.surface, c);
      hide PartsOf, HasAlphanumeric, Shaped, RunPart, SurfacePart;
      NoTermsYet(u, front);
      PartsPush(u, front, c);
      PartsAreShaped(u, front);
      ClosingAdds(u, p);
      RunAdds(u, p);
    }
  }

  lemma RunAdds(u: Unicode, p: Parts)
    requires SaneText(u) && Shaped(u, p)
    ensures !HasAlphanumeric(u, p.surface) ==> RunPart(u, p.run) == []
  {
    ClosingAdds(u, p);
  }

  /** A text has terms exactly when it has a letter or a digit. */
  lemma TermsExactlyWhen(u: Unicode, text: seq<char>)
    requires SaneText(u)
    ensures Tokens(u, text) == [] <==> !HasAlphanumeric(u, text)
  {
    hide HasAlphanumeric, Tokens, PartsOf, Shaped, RunPart, SurfacePart;
    TokensAre(u, text);
    NoTermsYet(u, text);
    PartsAreShaped(u, text);
    ClosingAdds(u, PartsOf(u, text));
  }

  // ---------------------------------------------------------------- what is still to come

  /** What has been given of a text by now: all closed parts, and the closed components of the open run. */
  function SoFar(u: Unicode, text: seq<char>): seq<Term> {
    PartsOf(u, text).closedTerms + RunSoFar(u, PartsOf(u, text).run)
  }

  lemma {:induction false} FirstOccurrencesExtend<T>(a: seq<T>, b: seq<T>)
    ensures FirstOccurrences(a) <= FirstOccurrences(a + b)
    decreases |b|
  {
    if b == [] {
      assert a + b == a;
    } else {
      var front, x := b[..|b| - 1], b[|b| - 1];
      hide FirstOccurrences;
      FirstOccurrencesExtend(a, front);
      FirstOccurrencesPush(a + front, x);
      assert a + b == a + front + [x];
    }
  }

  lemma {:induction false} NothingNew<T>(a: seq<T>, b: seq<T>)
    requires forall x :: x in b ==> x in a
    ensures FirstOccurrences(a + b) == FirstOccurrences(a)
    decreases |b|
  {
    if b == [] {
      assert a + b == a;
    } else {
      var front, x := b[..|b| - 1], b[|b| - 1];
      hide FirstOccurrences;
      NothingNew(a, front);
      FirstOccurrencesPush(a + front, x);
      assert x in b && a + b == a + front + [x];
    }
  }

  /** The texts whose terms only the end of a run brings: its last component, and the whole. */
  function ToCome(u: Unicode, run: seq<char>): seq<seq<char>> {
    var held := HeldIn(TrackOf(u, run));
    (if held == [] then [] else [held]) + if Blank(run) then [] else [run]
  }

  /** One of these terms is not that of a component already closed. */
  predicate RunHasMore(u: Unicode, run: seq<char>) {
    exists i :: 0 <= i < |ToCome(u, run)| && TermOf(u, ToCome(u, run)[i]) !in TermsOf(u, TrackOf(u, run).closed)
  }

  lemma TermsOfParts(u: Unicode, a: seq<seq<char>>, b: seq<seq<char>>)
    ensures TermsOf(u, a + b) == TermsOf(u, a) + TermsOf(u, b)
  {}

  lemma TermsOfOne(u: Unicode, text: seq<char>)
    ensures TermsOf(u, [text]) == [TermOf(u, text)] && TermsOf(u, []) == []
  {}

  lemma ComponentsAre(u: Unicode, run: seq<char>)
    requires Sane(u)
    ensures var t := TrackOf(u, run); Components(u, run) == t.closed + if HeldIn(t) == [] then [] else [HeldIn(t)]
  {
    hide TrackOf, Components, Tracks;
    TracksItself(u, run);
    TracksFinish(u, run, TrackOf(u, run));
  }

  lemma RunTermsAre(u: Unicode, run: seq<char>)
    requires Sane(u)
    ensures RunTerms(u, run) == FirstOccurrences(TermsOf(u, TrackOf(u, run).closed) + TermsOf(u, ToCome(u, run)))
  {
    var t := TrackOf(u, run);
    var last, whole := if HeldIn(t) == [] then [] else [HeldIn(t)], if Blank(run) then [] else [run];
    assert ToCome(u, run) == last + whole;
    hide Components, TrackOf, FirstOccurrences, TermOf, TermsOf, Blank, HeldIn, ToCome;
    ComponentsAre(u, run);
    TermsOfParts(u, t.closed, last);
    TermsOfParts(u, last, whole);
    TermsOfOne(u, run);
    Associates(TermsOf(u, t.closed), TermsOf(u, last), TermsOf(u, whole));
  }

  /** What a run has given is a beginning of its terms, and all of them exactly when its end brings
      nothing new. */
  lemma RunEndsExactlyWhen(u: Unicode, run: seq<char>)
    requires Sane(u)
    ensures RunSoFar(u, run) <= RunTerms(u, run)
    ensures RunSoFar(u, run) != RunTerms(u, run) <==> RunHasMore(u, run)
  {
    RunTermsAre(u, run);
    var a, more := TermsOf(u, TrackOf(u, run).closed), ToCome(u, run);
    var b := TermsOf(u, more);
    assert |b| == |more| && forall i :: 0 <= i < |more| ==> b[i] == TermOf(u, more[i]);
    hide TrackOf, FirstOccurrences, RunTerms, TermOf, TermsOf, ToCome;
    FirstOccurrencesExtend(a, b);
    if RunHasMore(u, run) {
      var i :| 0 <= i < |more| && TermOf(u, more[i]) !in a;
      FirstOccurrencesKeepsAll(a);
      FirstOccurrencesKeepsAll(a + b);
      assert b[i] == TermOf(u, more[i]) && b[i] in a + b;
    } else {
      forall x | x in b ensures x in a {
        var i :| 0 <= i < |b| && b[i] == x;
        assert TermOf(u, more[i]) in a;
      }
      NothingNew(a, b);
    }
  }

  // ---------------------------------------------------------------- a run is longer than its components

  lemma FoldedPush(u: Unicode, s: seq<char>, c: char)
    ensures Folded(u, s + [c]) == Folded(u, s) + Concat(u.fold(c))
  {
    assert (s + [c])[..|s|] == s;
  }

  function Length(u: Unicode, s: seq<char>): nat {
    |Folded(u, s)|
  }

  lemma {:induction false} LengthOfParts(u: Unicode, a: seq<char>, b: seq<char>)
    ensures Length(u, a + b) == Length(u, a) + Length(u, b)
    decreases |b|
  {
    if b == [] {
      assert a + b == a;
    } else {
      var front, c := b[..|b| - 1], b[|b| - 1];
      assert a + b == a + front + [c] && b == front + [c];
      LengthOfParts(u, a, front);
      FoldedPush(u, a + front, c);
      FoldedPush(u, front, c);
    }
  }

  /** No component is as long, folded, as the run it is from; nor together with what is held. */
  ghost predicate Within(u: Unicode, closed: seq<seq<char>>, held: seq<char>, length: nat) {
    && Length(u, held) <= length
    && forall k :: 0 <= k < |closed| ==> Length(u, closed[k]) < length && Length(u, closed[k]) + Length(u, held) <= length
  }

  lemma WithinGrows(u: Unicode, closed: seq<seq<char>>, held: seq<char>, length: nat, c: char)
    requires Within(u, closed, held, length)
    ensures Within(u, closed, held + [c], length + Length(u, [c]))
  {
    LengthOfParts(u, held, [c]);
    hide Length;
  }

  lemma WithinCut(u: Unicode, closed: seq<seq<char>>, x: seq<char>, y: seq<char>, length: nat)
    requires Within(u, closed, x + y, length) && Length(u, y) > 0
    ensures Within(u, closed + [x], y, length)
  {
    LengthOfParts(u, x, y);
    hide Length;
  }

  lemma WithinCloses(u: Unicode, closed: seq<seq<char>>, held: seq<char>, length: nat, more: nat)
    requires Within(u, closed, held, length) && more > 0
    ensures Within(u, closed + [held], [], length + more) && Within(u, closed, [], length + more)
  {
    assert Length(u, []) == 0;
    hide Length;
  }

  lemma WithinNext(u: Unicode, t: Track, length: nat, c: char)
    requires Within(u, t.closed, HeldIn(t), length) && Length(u, [c]) > 0 && (t.pending.None? ==> t.committed == [])
    ensures var t' := NextTrack(u, t, c);
      Within(u, t'.closed, HeldIn(t'), length + Length(u, [c])) && (t'.pending.None? ==> t'.committed == [])
  {
    hide Within, Length;
    var h, more := HeldIn(t), Length(u, [c]);
    WithinGrows(u, t.closed, h, length, c);
    if c == '_' {
      WithinCloses(u, t.closed, h, length, more);
      var t' := NextTrack(u, t, c);
      assert t'.closed == if h == [] then t.closed else t.closed + [h];
      assert HeldIn(t') == [];
    } else if t.pending.None? {
      assert h + [c] == [c];
    } else {
      var m, p := t.committed, t.pending.value;
      assert h == m + [p] && m + [p, c] == h + [c];
      if u.lower(p) && u.upper(c) {
        WithinCut(u, t.closed, h, [c], length + more);
        assert NextTrack(u, t, c) == Track(t.closed + [h], [], Some(c)) && [] + [c] == [c];
      } else if u.upper(p) && u.lower(c) && LastUpper(u, m) {
        assert Length(u, [p, c]) > 0 by { assert [p] + [c] == [p, c]; LengthOfParts(u, [p], [c]); }
        WithinCut(u, t.closed, m, [p, c], length + more);
        var t' := NextTrack(u, t, c);
        assert t' == Track(t.closed + [m], [] + [p], Some(c)) && HeldIn(t') == [p, c];
      }
    }
  }

  /** The foldings of its characters are not empty. */
  predicate FoldsAll(u: Unicode, run: seq<char>) {
    forall i :: 0 <= i < |run| ==> Length(u, [run[i]]) > 0
  }

  lemma {:induction false} ComponentsAreShorter(u: Unicode, run: seq<char>)
    requires FoldsAll(u, run)
    ensures var t := TrackOf(u, run); Within(u, t.closed, HeldIn(t), Length(u, run)) && (t.pending.None? ==> t.committed == [])
  {
    if run == [] {
      assert Length(u, []) == 0;
    } else {
      var front, c := run[..|run| - 1], run[|run| - 1];
      assert run == front + [c];
      LengthOfParts(u, front, [c]);
      hide Within, NextTrack, Length;
      ComponentsAreShorter(u, front);
      TrackOfPush(u, front, c);
      WithinNext(u, TrackOf(u, front), Length(u, front), c);
    }
  }

  /** The term of the whole is not that of a component with another folding. Short terms are their
      foldings, so only a collision of digests could make it one. */
  predicate TellsWhole(u: Unicode, run: seq<char>) {
    var closed := TrackOf(u, run).closed;
    forall k :: 0 <= k < |closed| && TermOf(u, closed[k]) == TermOf(u, run) ==> Folded(u, closed[k]) == Folded(u, run)
  }

  lemma ShortTellsWhole(u: Unicode, run: seq<char>)
    requires FoldsAll(u, run) && Length(u, run) <= MAX_TERM_BYTES
    ensures TellsWhole(u, run)
  {
    hide TrackOf, FoldsAll, Folded;
    ComponentsAreShorter(u, run);
  }

  lemma WholeIsNew(u: Unicode, run: seq<char>)
    requires FoldsAll(u, run) && (Length(u, run) <= MAX_TERM_BYTES || TellsWhole(u, run))
    ensures TermOf(u, run) !in TermsOf(u, TrackOf(u, run).closed)
  {
    hide FoldsAll, TrackOf, TermOf, Folded;
    if Length(u, run) <= MAX_TERM_BYTES {
      ShortTellsWhole(u, run);
    }
    ComponentsAreShorter(u, run);
    var closed := TrackOf(u, run).closed;
    forall k | 0 <= k < |closed| ensures TermOf(u, closed[k]) != TermOf(u, run) {
      assert Length(u, closed[k]) < Length(u, run);
    }
  }

  /** The whole run is the last of its terms, and still to come. */
  lemma WholeIsToCome(u: Unicode, run: seq<char>)
    requires FoldsAll(u, run) && !Blank(run)
    requires Length(u, run) <= MAX_TERM_BYTES || TellsWhole(u, run)
    ensures RunHasMore(u, run)
  {
    hide FoldsAll, TrackOf, TermOf, TermsOf, TellsWhole, Length, Blank;
    WholeIsNew(u, run);
    var last := |ToCome(u, run)| - 1;
    assert ToCome(u, run)[last] == run;
  }

  // ---------------------------------------------------------------- when everything has been given

  /** The end of an open occurrence brings further terms: the form of a compound, or what is left of
      a single run. */
  predicate HasMore(u: Unicode, open: seq<char>) {
    if HasSeparator(open) then HasAlphanumeric(u, open) else RunHasMore(u, open)
  }

  /** What a text has given is a beginning of its terms, and all of them exactly when the end of its
      open occurrence brings nothing new. */
  lemma MoreToComeExactlyWhen(u: Unicode, text: seq<char>)
    requires SaneText(u)
    ensures SoFar(u, text) <= Tokens(u, text)
    ensures SoFar(u, text) != Tokens(u, text) <==> HasMore(u, Surfaces(u, text).open)
  {
    assert Blank([]);
    hide Tokens, HasAlphanumeric, HasSeparator, RunTerms, RunSoFar, SurfaceTerms, Split, Worded, Blank, RunHasMore;
    var p := PartsOf(u, text);
    TokensAre(u, text);
    PartsAreShaped(u, text);
    ClosingAdds(u, p);
    RunEndsExactlyWhen(u, p.run);
    BlankHasNoTerms(u, p.run);
    WordedIsBlank(u, p.run);
    NoneHas(u);
    CompoundHasOne(u, p.surface);
    GivenSoFar(p.closedTerms, RunSoFar(u, p.run), RunPart(u, p.run), SurfacePart(u, p.surface));
  }

  lemma GivenSoFar(closed: seq<Term>, soFar: seq<Term>, run: seq<Term>, surface: seq<Term>)
    requires soFar <= run
    ensures closed + soFar <= closed + run + surface
    ensures closed + soFar == closed + run + surface <==> soFar == run && surface == []
  {
    assert |closed + soFar| == |closed| + |soFar| && |closed + run + surface| == |closed| + |run| + |surface|;
  }

  /** Without a letter or a digit the end brings nothing. With one it does, if the occurrence is a
      compound, or a run whose folding is kept as its term, or whose digest is that of no component. */
  lemma LettersBringMore(u: Unicode, open: seq<char>)
    requires SaneText(u) && (HasSeparator(open) || Worded(u, open))
    ensures HasMore(u, open) ==> HasAlphanumeric(u, open)
    ensures HasAlphanumeric(u, open) && (HasSeparator(open) || (FoldsAll(u, open) && (Length(u, open) <= MAX_TERM_BYTES || TellsWhole(u, open)))) ==>
              HasMore(u, open)
  {
    hide HasSeparator, HasAlphanumeric, TellsWhole, FoldsAll, Length, Worded, RunHasMore, Blank;
    if !HasSeparator(open) {
      WordedIsBlank(u, open);
      if Blank(open) {
        BlankHasNoMore(u, open);
      } else if FoldsAll(u, open) && (Length(u, open) <= MAX_TERM_BYTES || TellsWhole(u, open)) {
        WholeIsToCome(u, open);
      }
    }
  }

  lemma BlankHasNoMore(u: Unicode, run: seq<char>)
    requires Blank(run)
    ensures !RunHasMore(u, run)
  {
    BlankTrack(u, run);
  }

  /** An open occurrence without separators is a run. */
  lemma OpenIsWorded(u: Unicode, text: seq<char>)
    requires SaneText(u)
    ensures var open := Surfaces(u, text).open; HasSeparator(open) || Worded(u, open)
  {
    hide HasSeparator, Worded, HasAlphanumeric, Split;
    PartsAreShaped(u, text);
  }

  lemma CompoundHasOne(u: Unicode, surface: seq<char>)
    ensures |SurfacePart(u, surface)| == if HasAlphanumeric(u, surface) && HasSeparator(surface) then 1 else 0
  {}

  /** What the tokenizer object has emitted is that function of what it has heard. */
  lemma EmittedIs(t: StreamingTokenizer, footprint: set<object>, u: Unicode, whole: seq<char>, emitted: seq<Term>)
    requires Hears(t, footprint, u, whole, emitted)
    ensures emitted == SoFar(u, whole)
  {
    hide PartsOf, SurfaceTokenizer.Valid, Tracks, FirstOccurrences, FormDeduper.Valid;
    if t.run != null {
      TracksItself(u, t.run.text);
      TrackIsUnique(u, t.run.text, Track(t.run.closed, t.run.committed, t.run.pending), TrackOf(u, t.run.text));
    } else {
      assert TrackOf(u, []) == Track([], [], None) && TermsOf(u, []) == [];
      assert RunSoFar(u, []) == [] by { NothingOfNothing(u); }
    }
  }

  lemma NothingOfNothing(u: Unicode)
    ensures RunSoFar(u, []) == []
  {
    assert TermsOf(u, []) == [];
  }

  lemma TrackIsUnique(u: Unicode, run: seq<char>, s: Track, t: Track)
    requires Tracks(u, run, s) && Tracks(u, run, t)
    ensures s == t
  {
    if run != [] {
      hide Segments, Words;
      var segments := Segments(u, run);
      var last := segments[|segments| - 1];
      if last != ['_'] {
        assert s.pending == t.pending && s.committed == t.committed;
      }
    }
  }
}
