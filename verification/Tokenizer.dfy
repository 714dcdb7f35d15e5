/** The streaming tokenizer: terms come out as soon as their occurrence is complete, and together
    they are what a declarative split of the whole text gives. */
module Tokenizer {
  import opened Options
  import opened Bytes
  import opened Collections
  import opened WordForms
  import opened RunSplit

  predicate IsWord(u: Unicode, c: char) {
    u.alphanumeric(c) || c == '_'
  }

  predicate IsSurfaceSeparator(c: char) {
    c == '-' || c == '.' || c == ':' || c == '/' || c == '\\'
  }

  predicate IsDelimiter(u: Unicode, c: char) {
    !IsWord(u, c) && !IsSurfaceSeparator(c)
  }

  /** Neither separators nor the underscore are letters or digits, as in Unicode. */
  ghost predicate SaneText(u: Unicode) {
    Sane(u) && !u.alphanumeric('_') && forall c :: IsSurfaceSeparator(c) ==> !u.alphanumeric(c)
  }

  // ---------------------------------------------------------------- the declarative split

  /** Texts break into occurrences at delimiters, and occurrences into runs at separators. */
  datatype Level = Occurrences(u: Unicode) | RunsOfOne

  predicate IsBreak(level: Level, c: char) {
    match level
    case Occurrences(u) => IsDelimiter(u, c)
    case RunsOfOne => IsSurfaceSeparator(c)
  }

  /** The closed pieces of a text and the open one. */
  datatype Pieces = Pieces(closed: seq<seq<char>>, open: seq<char>)

  function Split(level: Level, text: seq<char>): Pieces {
    if text == [] then Pieces([], [])
    else
      var front, c := Split(level, text[..|text| - 1]), text[|text| - 1];
      if !IsBreak(level, c) then Pieces(front.closed, front.open + [c]) else Pieces(All(front), [])
  }

  /** All non-empty pieces. */
  function All(p: Pieces): seq<seq<char>> {
    p.closed + if p.open == [] then [] else [p.open]
  }

  function Surfaces(u: Unicode, text: seq<char>): Pieces {
    Split(Occurrences(u), text)
  }

  function Runs(u: Unicode, surface: seq<char>): Pieces {
    Split(RunsOfOne, surface)
  }

  predicate HasSeparator(s: seq<char>) {
    exists i :: 0 <= i < |s| && IsSurfaceSeparator(s[i])
  }

  predicate HasAlphanumeric(u: Unicode, s: seq<char>) {
    exists i :: 0 <= i < |s| && u.alphanumeric(s[i])
  }

  /** A compound loses one trailing separator, as at the end of a sentence, if it is compound without it. */
  function Trimmed(s: seq<char>): seq<char> {
    if s != [] && IsSurfaceSeparator(s[|s| - 1]) && HasSeparator(s[..|s| - 1]) then s[..|s| - 1] else s
  }

  function SurfaceTerms(u: Unicode, s: seq<char>): seq<Term> {
    if HasAlphanumeric(u, s) && HasSeparator(s) then [TermOf(u, Trimmed(s))] else []
  }

  function AllRunTerms(u: Unicode, runs: seq<seq<char>>): seq<Term> {
    if runs == [] then [] else AllRunTerms(u, runs[..|runs| - 1]) + RunTerms(u, runs[|runs| - 1])
  }

  /** The terms of one occurrence: those of its runs, then its compound form. */
  function OccurrenceTerms(u: Unicode, surface: seq<char>): seq<Term> {
    AllRunTerms(u, All(Runs(u, surface))) + SurfaceTerms(u, surface)
  }

  function AllOccurrenceTerms(u: Unicode, surfaces: seq<seq<char>>): seq<Term> {
    if surfaces == [] then []
    else AllOccurrenceTerms(u, surfaces[..|surfaces| - 1]) + OccurrenceTerms(u, surfaces[|surfaces| - 1])
  }

  /** The terms of a text. */
  function Tokens(u: Unicode, text: seq<char>): seq<Term> {
    AllOccurrenceTerms(u, All(Surfaces(u, text)))
  }

  function NextPieces(level: Level, p: Pieces, c: char): Pieces {
    if IsBreak(level, c) then Pieces(All(p), []) else Pieces(p.closed, p.open + [c])
  }

  lemma SplitPush(level: Level, text: seq<char>, c: char)
    ensures Split(level, text + [c]) == NextPieces(level, Split(level, text), c)
  {
    assert (text + [c])[..|text|] == text;
  }

  /** The pieces of a text, in order, are all of it but the breaks. */
  lemma {:induction false} SplitKeepsAll(level: Level, text: seq<char>)
    ensures var p := Split(level, text); Concat(p.closed) + p.open == Kept(level, text)
  {
    if text != [] {
      var p, c := Split(level, text[..|text| - 1]), text[|text| - 1];
      SplitKeepsAll(level, text[..|text| - 1]);
      if IsBreak(level, c) {
        if p.open != [] {
          ConcatPush(p.closed, p.open);
        } else {
          assert p.closed + [] == p.closed;
        }
      } else {
        assert Concat(p.closed) + (p.open + [c]) == Concat(p.closed) + p.open + [c];
      }
    }
  }

  function Kept(level: Level, text: seq<char>): seq<char> {
    if text == [] then []
    else Kept(level, text[..|text| - 1]) + if IsBreak(level, text[|text| - 1]) then [] else [text[|text| - 1]]
  }

  ghost predicate Unbroken(level: Level, s: seq<char>) {
    forall k :: 0 <= k < |s| ==> !IsBreak(level, s[k])
  }

  /** No piece is empty or holds a break, and the open one reaches back to the last break. */
  ghost predicate MaximalIn(level: Level, text: seq<char>, p: Pieces) {
    && (forall i :: 0 <= i < |p.closed| ==> p.closed[i] != [] && Unbroken(level, p.closed[i]))
    && Unbroken(level, p.open)
    && |p.open| <= |text| && p.open == text[|text| - |p.open|..]
    && (|p.open| < |text| ==> IsBreak(level, text[|text| - |p.open| - 1]))
  }

  lemma {:induction false} SplitIsMaximal(level: Level, text: seq<char>)
    ensures MaximalIn(level, text, Split(level, text))
  {
    if text == [] {
      assert Split(level, text) == Pieces([], []);
      hide Split, IsBreak;
    } else {
      hide *;
      var front, c := text[..|text| - 1], text[|text| - 1];
      SplitIsMaximal(level, front);
      SplitPush(level, front, c);
      assert text == front + [c];
      MaximalPush(level, front, Split(level, front), c);
    }
  }

  lemma UnbrokenPush(level: Level, s: seq<char>, c: char)
    requires Unbroken(level, s) && !IsBreak(level, c)
    ensures Unbroken(level, s + [c])
  {
    hide IsBreak;
  }

  lemma MaximalPush(level: Level, text: seq<char>, p: Pieces, c: char)
    requires MaximalIn(level, text, p)
    ensures MaximalIn(level, text + [c], NextPieces(level, p, c))
  {
    var n := |text| - |p.open|;
    if IsBreak(level, c) {
      hide IsBreak, Unbroken;
      assert (text + [c])[|text| + 1..] == [];
    } else {
      UnbrokenPush(level, p.open, c);
      hide IsBreak, Unbroken;
      assert (text + [c])[n..] == text[n..] + [c];
      assert n > 0 ==> (text + [c])[n - 1] == text[n - 1];
    }
  }

  /** A compound that does not end in a separator is one term of its own; one separator behind it, as at
      the end of a sentence, makes no difference. A second one does. */
  lemma CompoundIsTerm(u: Unicode, s: seq<char>, separator: char)
    requires SaneText(u) && HasAlphanumeric(u, s) && HasSeparator(s) && !IsSurfaceSeparator(s[|s| - 1]) && IsSurfaceSeparator(separator)
    ensures SurfaceTerms(u, s) == SurfaceTerms(u, s + [separator]) == [TermOf(u, s)]
    ensures SurfaceTerms(u, s + [separator, separator]) == [TermOf(u, s + [separator])]
  {
    var once, twice := s + [separator], s + [separator, separator];
    HasPush(u, s, separator);
    HasPush(u, once, separator);
    assert once + [separator] == twice && once[..|s|] == s && twice[..|once|] == once;
    hide HasAlphanumeric, HasSeparator, TermOf;
  }

  /** A word that a separator only follows is no compound until it has another, and its only separator
      stays with it. */
  lemma TrailingSeparatorStays(u: Unicode, s: seq<char>, separator: char)
    requires SaneText(u) && HasAlphanumeric(u, s) && !HasSeparator(s) && IsSurfaceSeparator(separator)
    ensures SurfaceTerms(u, s) == [] && SurfaceTerms(u, s + [separator]) == [TermOf(u, s + [separator])]
  {
    var once := s + [separator];
    HasPush(u, s, separator);
    assert once[..|s|] == s;
    hide HasAlphanumeric, HasSeparator, TermOf;
  }


  // ---------------------------------------------------------------- surfaces in place

  class SurfaceTokenizer {
    const u: Unicode
    var form: Form
    var trimmed: Form
    var sawAlphanumeric: bool
    var sawSeparator: bool
    var trimmedHasSeparator: bool
    var pendingSeparator: Option<char>
    const dedup: FormDeduper
    ghost var text: seq<char>
    ghost var kept: seq<char>

    /** `trimmed` lags behind `form` by a trailing separator. */
    ghost predicate Valid()
      reads this, dedup
    {
      && dedup.Valid() && dedup.inserted == []
      && form == FormOf(u, text) && trimmed == FormOf(u, kept)
      && text == kept + (if pendingSeparator.Some? then [pendingSeparator.value] else [])
      && (pendingSeparator.Some? <==> text != [] && IsSurfaceSeparator(text[|text| - 1]))
      && (sawAlphanumeric <==> HasAlphanumeric(u, text))
      && (sawSeparator <==> HasSeparator(text))
      && (trimmedHasSeparator <==> HasSeparator(kept))
    }

    constructor (u: Unicode)
      ensures Valid() && fresh(dedup) && this.u == u && text == []
    {
      this.u := u;
      form, trimmed := EMPTY_FORM, EMPTY_FORM;
      sawAlphanumeric, sawSeparator, trimmedHasSeparator, pendingSeparator := false, false, false, None;
      dedup := new FormDeduper();
      text, kept := [], [];
    }

    method Push(c: char)
      requires Valid() && !IsSurfaceSeparator(c)
      modifies this
      ensures Valid() && text == old(text) + [c]
    {
      hide FormOf, HasAlphanumeric, HasSeparator, IsSurfaceSeparator, FormDeduper.Valid;
      form := PushChar(u, form, c);
      KeepPending();
      assert kept == text;
      PushTrimmed(c);
    }

    /** The character, which `form` has already, joins the trimmed form as well. */
    method PushTrimmed(c: char)
      requires dedup.Valid() && dedup.inserted == [] && !IsSurfaceSeparator(c)
      requires form == FormOf(u, text + [c]) && trimmed == FormOf(u, text) && kept == text && pendingSeparator.None?
      requires (sawAlphanumeric <==> HasAlphanumeric(u, text)) && (sawSeparator <==> HasSeparator(text))
      requires trimmedHasSeparator <==> HasSeparator(text)
      modifies this`trimmed, this`text, this`kept, this`sawAlphanumeric
      ensures Valid() && text == old(text) + [c]
    {
      hide FormOf, HasAlphanumeric, HasSeparator, IsSurfaceSeparator, FormDeduper.Valid;
      HasPush(u, text, c);
      trimmed := PushChar(u, trimmed, c);
      text := text + [c];
      kept := text;
      sawAlphanumeric := sawAlphanumeric || u.alphanumeric(c);
    }

    /** A separator that turns out not to be trailing belongs to the trimmed form. */
    method KeepPending()
      requires trimmed == FormOf(u, kept) && (trimmedHasSeparator <==> HasSeparator(kept))
      requires pendingSeparator.Some? ==> IsSurfaceSeparator(pendingSeparator.value)
      modifies this`trimmed, this`kept, this`trimmedHasSeparator, this`pendingSeparator
      ensures trimmed == FormOf(u, kept) && (trimmedHasSeparator <==> HasSeparator(kept)) && pendingSeparator.None?
      ensures kept == old(kept) + if old(pendingSeparator).Some? then [old(pendingSeparator).value] else []
    {
      if pendingSeparator.Some? {
        HasPush(u, kept, pendingSeparator.value);
        trimmed := PushChar(u, trimmed, pendingSeparator.value);
        kept := kept + [pendingSeparator.value];
        trimmedHasSeparator := true;
        pendingSeparator := None;
      }
    }

    method PushSeparator(c: char)
      requires Valid() && IsSurfaceSeparator(c) && !u.alphanumeric(c)
      modifies this
      ensures Valid() && text == old(text) + [c]
    {
      hide FormOf, HasAlphanumeric, HasSeparator;
      HasPush(u, text, c);
      form := PushChar(u, form, c);
      KeepPending();
      pendingSeparator := Some(c);
      sawSeparator := true;
      text := text + [c];
    }

    method Finish() returns (emitted: seq<Term>)
      requires Valid()
      modifies this, dedup
      ensures emitted == SurfaceTerms(u, old(text))
    {
      emitted := [];
      if sawAlphanumeric && sawSeparator {
        FinishedFormIsTerm(u, text);
        FinishedFormIsTerm(u, kept);
        var term := if pendingSeparator.Some? && trimmedHasSeparator then FinishForm(u, trimmed) else FinishForm(u, form);
        assert pendingSeparator.Some? ==> kept == text[..|text| - 1];
        var isNew := dedup.Insert(term);
        if isNew {
          emitted := [term];
        }
      }
    }
  }

  lemma HasPush(u: Unicode, s: seq<char>, c: char)
    ensures HasAlphanumeric(u, s + [c]) <==> HasAlphanumeric(u, s) || u.alphanumeric(c)
    ensures HasSeparator(s + [c]) <==> HasSeparator(s) || IsSurfaceSeparator(c)
  {
    var t := s + [c];
    assert forall i :: 0 <= i < |s| ==> t[i] == s[i];
    assert t[|s|] == c;
  }

  // ---------------------------------------------------------------- one more character

  /** What has to be known of a text to go on: the terms of everything closed, and what is open. */
  datatype Parts = Parts(closedTerms: seq<Term>, surface: seq<char>, run: seq<char>)

  function PartsOf(u: Unicode, text: seq<char>): Parts {
    var p := Surfaces(u, text);
    var r := Runs(u, p.open);
    Parts(AllOccurrenceTerms(u, p.closed) + AllRunTerms(u, r.closed), p.open, r.open)
  }

  function RunPart(u: Unicode, run: seq<char>): seq<Term> {
    if run == [] then [] else RunTerms(u, run)
  }

  function SurfacePart(u: Unicode, surface: seq<char>): seq<Term> {
    if surface == [] then [] else SurfaceTerms(u, surface)
  }

  function Closed(u: Unicode, p: Parts): Parts {
    Parts(p.closedTerms + RunPart(u, p.run) + SurfacePart(u, p.surface), [], [])
  }

  function NextParts(u: Unicode, p: Parts, c: char): Parts {
    if IsWord(u, c) then Parts(p.closedTerms, p.surface + [c], p.run + [c])
    else if IsSurfaceSeparator(c) then Parts(p.closedTerms + RunPart(u, p.run), p.surface + [c], [])
    else Closed(u, p)
  }

  lemma AllRunTermsOfAll(u: Unicode, p: Pieces)
    ensures AllRunTerms(u, All(p)) == AllRunTerms(u, p.closed) + RunPart(u, p.open)
  {
    if p.open != [] {
      assert All(p)[..|All(p)| - 1] == p.closed;
    } else {
      assert All(p) == p.closed;
    }
  }

  lemma AllOccurrenceTermsOfAll(u: Unicode, p: Pieces)
    ensures AllOccurrenceTerms(u, All(p)) == AllOccurrenceTerms(u, p.closed) + if p.open == [] then [] else OccurrenceTerms(u, p.open)
  {
    if p.open != [] {
      assert All(p)[..|All(p)| - 1] == p.closed;
    } else {
      assert All(p) == p.closed;
    }
  }

  lemma OccurrencePart(u: Unicode, surface: seq<char>)
    ensures var r := Runs(u, surface);
      AllRunTerms(u, r.closed) + RunPart(u, r.open) + SurfacePart(u, surface) == if surface == [] then [] else OccurrenceTerms(u, surface)
  {
    AllRunTermsOfAll(u, Runs(u, surface));
  }

  /** A text's terms are those of its closed parts, then those of what is open. */
  lemma TokensAre(u: Unicode, text: seq<char>)
    ensures Tokens(u, text) == Closed(u, PartsOf(u, text)).closedTerms
  {
    hide RunTerms, SurfaceTerms;
    var p := Surfaces(u, text);
    OccurrencePart(u, p.open);
    AllOccurrenceTermsOfAll(u, p);
    hide Split, AllRunTerms, AllOccurrenceTerms, All, OccurrenceTerms, RunPart, SurfacePart;
    var r := Runs(u, p.open);
    var a, b, c, d := AllOccurrenceTerms(u, p.closed), AllRunTerms(u, r.closed), RunPart(u, r.open), SurfacePart(u, p.open);
    assert a + (b + c + d) == a + b + c + d;
  }

  lemma PartsPush(u: Unicode, text: seq<char>, c: char)
    requires SaneText(u)
    ensures PartsOf(u, text + [c]) == NextParts(u, PartsOf(u, text), c)
  {
    hide RunTerms, SurfaceTerms;
    var p := Surfaces(u, text);
    var r := Runs(u, p.open);
    SplitPush(Occurrences(u), text, c);
    SplitPush(RunsOfOne, p.open, c);
    assert AllRunTerms(u, []) == [] && Runs(u, []) == Pieces([], []);
    hide Split, AllRunTerms, AllOccurrenceTerms, All;
    if IsDelimiter(u, c) {
      TokensAre(u, text);
    } else if IsSurfaceSeparator(c) {
      AllRunTermsOfAll(u, r);
      Associates(AllOccurrenceTerms(u, p.closed), AllRunTerms(u, r.closed), RunPart(u, r.open));
    }
  }

  // ---------------------------------------------------------------- the tokenizer in place

  class StreamingTokenizer {
    const u: Unicode
    var run: RunTokenizer?
    var surface: SurfaceTokenizer?
    ghost var text: seq<char>
    ghost var parts: Parts

    ghost predicate ValidParts()
      reads this, Repr()
    {
      && SaneText(u)
      && (surface == null <==> parts.surface == [])
      && (surface != null ==> surface.u == u && surface.Valid() && surface.text == parts.surface)
      && (run == null <==> parts.run == [])
      && (run != null ==> run.u == u && run.Valid() && run.text == parts.run)
      && (run != null && surface != null ==> run.dedup != surface.dedup)
    }

    ghost predicate Valid()
      reads this, Repr()
    {
      ValidParts() && parts == PartsOf(u, text)
    }

    ghost function Repr(): set<object>
      reads this, run, surface
    {
      {this} + (if run == null then {} else {run, run.dedup}) + (if surface == null then {} else {surface, surface.dedup})
    }

    /** What has been emitted: the terms of all closed parts, and what the open run has given so far. */
    ghost function Emitted(): seq<Term>
      reads this, Repr()
    {
      parts.closedTerms + if run == null then [] else run.Emitted()
    }

    constructor (u: Unicode)
      requires SaneText(u)
      ensures Valid() && this.u == u && text == [] && Emitted() == [] && fresh(Repr())
    {
      this.u, run, surface := u, null, null;
      text, parts := [], Parts([], [], []);
    }

    /** Feeds one character and returns the terms it completes. */
    method Push(c: char) returns (emitted: seq<Term>)
      requires Valid()
      modifies Repr()
      ensures Valid() && text == old(text) + [c] && fresh(Repr() - old(Repr()))
      ensures Emitted() == old(Emitted()) + emitted
    {
      hide PartsOf, NextParts, RunTokenizer.Valid, SurfaceTokenizer.Valid, RunTerms, SurfaceTerms;
      PartsPush(u, text, c);
      emitted := PushPart(c);
      text := text + [c];
    }

    method PushPart(c: char) returns (emitted: seq<Term>)
      requires ValidParts()
      modifies Repr()
      ensures ValidParts() && parts == NextParts(u, old(parts), c) && fresh(Repr() - old(Repr())) && text == old(text)
      ensures Emitted() == old(Emitted()) + emitted
    {
      hide RunTerms, SurfaceTerms, RunTokenizer.Valid, SurfaceTokenizer.Valid;
      if IsWord(u, c) {
        emitted := PushToRun(c);
        PushToSurface(c);
      } else if IsSurfaceSeparator(c) {
        emitted := FinishRun();
        PushToSurface(c);
      } else {
        emitted := Flush();
      }
    }

    method PushToRun(c: char) returns (emitted: seq<Term>)
      requires ValidParts()
      modifies this`run, this`parts, if run == null then {} else {run, run.dedup}
      ensures ValidParts() && parts == old(parts).(run := old(parts).run + [c])
      ensures fresh(Repr() - old(Repr()))
      ensures Emitted() == old(Emitted()) + emitted
    {
      hide RunTokenizer.Valid, SurfaceTokenizer.Valid;
      if run == null {
        run := new RunTokenizer(u);
      }
      emitted := run.Push(c);
      parts := parts.(run := parts.run + [c]);
    }

    method PushToSurface(c: char)
      requires ValidParts() && !IsDelimiter(u, c)
      modifies this`surface, this`parts, if surface == null then {} else {surface}
      ensures ValidParts() && parts == old(parts).(surface := old(parts).surface + [c])
      ensures fresh(Repr() - old(Repr()))
      ensures Emitted() == old(Emitted())
    {
      hide RunTokenizer.Valid, SurfaceTokenizer.Valid;
      if surface == null {
        surface := new SurfaceTokenizer(u);
      }
      if IsSurfaceSeparator(c) {
        surface.PushSeparator(c);
      } else {
        surface.Push(c);
      }
      parts := parts.(surface := parts.surface + [c]);
    }

    /** Ends the text: what has been emitted is now all of its terms. */
    method Finish() returns (emitted: seq<Term>)
      requires Valid()
      modifies Repr()
      ensures old(Emitted()) + emitted == Tokens(u, old(text))
    {
      TokensAre(u, text);
      emitted := Flush();
    }

    method Flush() returns (emitted: seq<Term>)
      requires ValidParts()
      modifies Repr()
      ensures ValidParts() && parts == Closed(u, old(parts)) && Repr() == {this} && text == old(text)
      ensures Emitted() == old(Emitted()) + emitted
    {
      hide RunTerms, SurfaceTerms, RunTokenizer.Valid, SurfaceTokenizer.Valid;
      emitted := FinishRun();
      if surface != null {
        var whole := surface.Finish();
        assert old(Emitted()) + (emitted + whole) == old(Emitted()) + emitted + whole;
        emitted := emitted + whole;
        parts := parts.(closedTerms := parts.closedTerms + whole);
        surface := null;
      }
      parts := parts.(surface := []);
    }

    method FinishRun() returns (emitted: seq<Term>)
      requires ValidParts()
      modifies this`run, this`parts, if run == null then {} else {run, run.dedup}
      ensures ValidParts() && run == null
      ensures parts == old(parts).(closedTerms := old(parts).closedTerms + RunPart(u, old(parts).run), run := [])
      ensures Emitted() == old(Emitted()) + emitted
    {
      hide RunTokenizer.Valid, SurfaceTokenizer.Valid, RunTerms, SurfaceTerms, SaneText;
      emitted := [];
      ghost var r := parts.run;
      if run != null {
        emitted := run.Finish();
        run := null;
      }
      parts := parts.(closedTerms := parts.closedTerms + RunPart(u, r), run := []);
    }
  }

  // ---------------------------------------------------------------- the tokenizer, from outside

  /** All the tokenizer consists of is in the footprint. */
  ghost predicate Hears(t: StreamingTokenizer, footprint: set<object>, u: Unicode, whole: seq<char>, emitted: seq<Term>)
    reads footprint
  {
    && t in footprint && (t.run != null ==> t.run in footprint) && (t.surface != null ==> t.surface in footprint)
    && t.Repr() <= footprint
    && t.u == u && t.Valid() && t.text == whole && t.Emitted() == emitted
  }

  method Hear(t: StreamingTokenizer, ghost footprint: set<object>, ghost u: Unicode, ghost whole: seq<char>, ghost emitted: seq<Term>, c: char)
    returns (more: seq<Term>, ghost footprint': set<object>)
    requires Hears(t, footprint, u, whole, emitted)
    modifies footprint
    ensures Hears(t, footprint', u, whole + [c], emitted + more) && fresh(footprint' - footprint) && footprint <= footprint'
  {
    hide StreamingTokenizer.Valid, StreamingTokenizer.Emitted;
    more := t.Push(c);
    footprint' := footprint + t.Repr();
  }

  method HearEnd(t: StreamingTokenizer, ghost footprint: set<object>, ghost u: Unicode, ghost whole: seq<char>, ghost emitted: seq<Term>)
    returns (more: seq<Term>)
    requires Hears(t, footprint, u, whole, emitted)
    modifies footprint
    ensures emitted + more == Tokens(u, whole)
  {
    hide StreamingTokenizer.Valid, StreamingTokenizer.Emitted, Tokens;
    more := t.Finish();
  }

  method NewTokenizer(u: Unicode) returns (t: StreamingTokenizer, ghost footprint: set<object>)
    requires SaneText(u)
    ensures Hears(t, footprint, u, [], []) && fresh(footprint)
  {
    hide StreamingTokenizer.Valid, StreamingTokenizer.Emitted, SaneText;
    t := new StreamingTokenizer(u);
    footprint := t.Repr();
  }

  /** Behind a delimiter nothing is open. */
  lemma DelimiterCloses(u: Unicode, whole: seq<char>)
    requires SaneText(u) && (whole == [] || IsDelimiter(u, whole[|whole| - 1]))
    ensures PartsOf(u, whole) == Parts(Tokens(u, whole), [], [])
  {
    NothingOpen(u);
    hide PartsOf, Tokens, SaneText, RunTerms, SurfaceTerms;
    TokensAre(u, whole);
    if whole != [] {
      var front, c := whole[..|whole| - 1], whole[|whole| - 1];
      assert whole == front + [c];
      PartsPush(u, front, c);
      var q, p := PartsOf(u, front), PartsOf(u, whole);
      assert NextParts(u, q, c) == Closed(u, q);
      assert p.surface == [] && p.run == [];
      assert p.closedTerms + [] + [] == p.closedTerms;
    }
  }

  lemma NothingOpen(u: Unicode)
    ensures PartsOf(u, []) == Parts([], [], []) && Tokens(u, []) == []
  {}

  lemma AtDelimiter(t: StreamingTokenizer, footprint: set<object>, u: Unicode, whole: seq<char>, emitted: seq<Term>)
    requires Hears(t, footprint, u, whole, emitted)
    ensures whole == [] || IsDelimiter(u, whole[|whole| - 1]) ==> emitted == Tokens(u, whole)
  {
    hide RunTokenizer.Valid, SurfaceTokenizer.Valid, Tokens, PartsOf, IsDelimiter;
    assert SaneText(u) && t.parts == PartsOf(u, whole) && t.u == u;
    if whole == [] || IsDelimiter(u, whole[|whole| - 1]) {
      DelimiterCloses(u, whole);
      assert t.run == null;
      assert t.parts.closedTerms + [] == t.parts.closedTerms;
    }
  }
}
