/** Splitting one identifier into its components while it streams past, one character of lookahead
    at a time, against a declarative split of the complete identifier. */
module RunSplit {
  import opened Options
  import opened WordForms

  // ---------------------------------------------------------------- the declarative split

  /** A component boundary lies before position `i`: beside an underscore, from lower to upper case,
      or before the last capital of an acronym that a lower-case letter follows. */
  predicate Cut(u: Unicode, s: seq<char>, i: nat)
    requires 0 < i < |s|
  {
    || s[i - 1] == '_'
    || s[i] == '_'
    || (u.lower(s[i - 1]) && u.upper(s[i]))
    || (i + 1 < |s| && u.upper(s[i - 1]) && u.upper(s[i]) && u.lower(s[i + 1]))
  }

  /** The stretches between boundaries, of which the one under way began at `lo`. */
  function SegmentsFrom(u: Unicode, s: seq<char>, lo: nat, i: nat): seq<seq<char>>
    requires lo < i <= |s|
    decreases |s| - i
  {
    if i == |s| then [s[lo..]]
    else if Cut(u, s, i) then [s[lo..i]] + SegmentsFrom(u, s, i, i + 1)
    else SegmentsFrom(u, s, lo, i + 1)
  }

  function Segments(u: Unicode, s: seq<char>): seq<seq<char>> {
    if s == [] then [] else SegmentsFrom(u, s, 0, 1)
  }

  /** Underscores separate components; each is a segment of its own. */
  function Words(segments: seq<seq<char>>): seq<seq<char>> {
    if segments == [] then []
    else
      var last := segments[|segments| - 1];
      Words(segments[..|segments| - 1]) + if last == ['_'] then [] else [last]
  }

  function Components(u: Unicode, s: seq<char>): seq<seq<char>> {
    Words(Segments(u, s))
  }

  function TermsOf(u: Unicode, texts: seq<seq<char>>): seq<Term> {
    seq(|texts|, i requires 0 <= i < |texts| => TermOf(u, texts[i]))
  }

  predicate Blank(s: seq<char>) {
    forall i :: 0 <= i < |s| ==> s[i] == '_'
  }

  /** The terms of an identifier: the first occurrences of its components' forms, then its own. */
  function RunTerms(u: Unicode, s: seq<char>): seq<Term> {
    FirstOccurrences(TermsOf(u, Components(u, s)) + if Blank(s) then [] else [TermOf(u, s)])
  }

  // ---------------------------------------------------------------- one more character

  /** How the segments change when a character is appended. Only here does lookahead matter: the
      new character may split the capital before it off an acronym. */
  function Extended(u: Unicode, segments: seq<seq<char>>, c: char): seq<seq<char>>
    requires segments != [] && segments[|segments| - 1] != []
  {
    var front, last := segments[..|segments| - 1], segments[|segments| - 1];
    var n := |last|;
    var p := last[n - 1];
    if c == '_' || p == '_' || (u.lower(p) && u.upper(c)) then segments + [[c]]
    else if u.upper(p) && u.lower(c) && n >= 2 && u.upper(last[n - 2]) then front + [last[..n - 1], [p, c]]
    else front + [last + [c]]
  }

  ghost predicate Inner(u: Unicode, s: seq<char>, lo: nat, i: nat) {
    lo < i <= |s| && forall k :: lo < k < i ==> !Cut(u, s, k)
  }

  lemma {:induction false} SegmentsEnd(u: Unicode, s: seq<char>, lo: nat, i: nat)
    requires lo < i <= |s| && Inner(u, s, lo, i)
    ensures var segments := SegmentsFrom(u, s, lo, i);
      && segments != []
      && (forall k :: 0 <= k < |segments| ==> segments[k] != [])
      && var last := segments[|segments| - 1];
      && |last| <= |s| && last == s[|s| - |last|..]
      && (forall k: nat :: |s| - |last| < k < |s| ==> !Cut(u, s, k))
      && (|segments| == 1 ==> last == s[lo..])
      && (|last| < |s| - lo ==> |segments| > 1 && |last| < |s| && Cut(u, s, |s| - |last|))
    decreases |s| - i
  {
    if i < |s| {
      SegmentsEnd(u, s, if Cut(u, s, i) then i else lo, i + 1);
    }
  }

  /** Appending to a text whose scan has not yet reached its last two characters. */
  lemma {:induction false} SegmentsExtend(u: Unicode, s: seq<char>, c: char, lo: nat, i: nat)
    requires Sane(u) && lo < i < |s| && Inner(u, s, lo, i)
    ensures SegmentsFrom(u, s, lo, i) != [] && SegmentsFrom(u, s, lo, i)[|SegmentsFrom(u, s, lo, i)| - 1] != []
    ensures SegmentsFrom(u, s + [c], lo, i) == Extended(u, SegmentsFrom(u, s, lo, i), c)
    decreases |s| - i
  {
    var t, n := s + [c], |s|;
    if i < n - 1 {
      assert Cut(u, t, i) == Cut(u, s, i);
      if Cut(u, s, i) {
        SegmentsExtend(u, s, c, i, i + 1);
        ExtendedBehind(u, s[lo..i], SegmentsFrom(u, s, i, i + 1), c);
        assert t[lo..i] == s[lo..i];
      } else {
        SegmentsExtend(u, s, c, lo, i + 1);
      }
    } else {
      ExtendAtEnd(u, s, c, lo);
    }
  }

  lemma ExtendedBehind(u: Unicode, first: seq<char>, segments: seq<seq<char>>, c: char)
    requires segments != [] && segments[|segments| - 1] != []
    ensures Extended(u, [first] + segments, c) == [first] + Extended(u, segments, c)
  {
    var all := [first] + segments;
    assert all[..|all| - 1] == [first] + segments[..|segments| - 1];
    assert all[|all| - 1] == segments[|segments| - 1];
  }

  predicate Breaks(u: Unicode, p: char, c: char) {
    c == '_' || p == '_' || (u.lower(p) && u.upper(c))
  }

  lemma ExtendedShort(u: Unicode, a: seq<char>, p: char, c: char)
    ensures Extended(u, [a, [p]], c) == if Breaks(u, p, c) then [a, [p], [c]] else [a, [p, c]]
  {
    assert [a, [p]][..1] == [a] && [p] + [c] == [p, c];
  }

  lemma ExtendedLong(u: Unicode, a: seq<char>, p: char, c: char)
    requires a != []
    ensures Extended(u, [a + [p]], c) ==
      if Breaks(u, p, c) then [a + [p], [c]]
      else if u.upper(a[|a| - 1]) && u.upper(p) && u.lower(c) then [a, [p, c]]
      else [a + [p] + [c]]
  {
    assert (a + [p])[..|a|] == a;
  }

  /** What the new character decides: the boundary before it, and whether the one before it is a
      capital split off an acronym. */
  lemma CutsAtEnd(u: Unicode, s: seq<char>, c: char)
    requires |s| >= 2
    ensures var t, n := s + [c], |s|;
      && (Cut(u, t, n) <==> Breaks(u, s[n - 1], c))
      && (Cut(u, t, n - 1) <==> Cut(u, s, n - 1) || (u.upper(s[n - 2]) && u.upper(s[n - 1]) && u.lower(c)))
  {}

  lemma SegmentsOfLastTwo(u: Unicode, t: seq<char>, lo: nat)
    requires lo < |t| - 2
    ensures var n := |t| - 1;
      var a, p, c := t[lo..n - 1], t[n - 1], t[n];
      SegmentsFrom(u, t, lo, n - 1) ==
        if Cut(u, t, n - 1) then (if Cut(u, t, n) then [a, [p], [c]] else [a, [p, c]])
        else if Cut(u, t, n) then [t[lo..n], [c]] else [t[lo..]]
  {
    var n := |t| - 1;
    assert SegmentsFrom(u, t, n, n + 1) == [t[n..]] && SegmentsFrom(u, t, lo, n + 1) == [t[lo..]] && SegmentsFrom(u, t, n - 1, n + 1) == [t[n - 1..]];
    hide Cut;
    assert t[n..] == [t[n]] && t[n - 1..] == [t[n - 1], t[n]] && t[n - 1..n] == [t[n - 1]];
  }

  /** The scan stands before the last character. */
  lemma ExtendAtEnd(u: Unicode, s: seq<char>, c: char, lo: nat)
    requires Sane(u) && lo < |s| - 1
    ensures var n := |s|;
      var before := if Cut(u, s, n - 1) then [s[lo..n - 1], s[n - 1..]] else [s[lo..]];
      SegmentsFrom(u, s, lo, n - 1) == before && SegmentsFrom(u, s + [c], lo, n - 1) == Extended(u, before, c)
  {
    var t, n := s + [c], |s|;
    var p, a := s[n - 1], s[lo..n - 1];
    assert SegmentsFrom(u, s, n - 1, n) == [s[n - 1..]] && SegmentsFrom(u, s, lo, n) == [s[lo..]];
    hide SegmentsFrom, Extended, Cut;
    SegmentsOfLastTwo(u, t, lo);
    CutsAtEnd(u, s, c);
    assert t[lo..n - 1] == a && t[lo..n] == s[lo..] && t[lo..] == s[lo..] + [c] && s[n - 1..] == [p] && s[lo..] == a + [p];
    if Cut(u, s, n - 1) {
      ExtendedShort(u, a, p, c);
    } else {
      ExtendedLong(u, a, p, c);
    }
  }

  lemma SegmentsPush(u: Unicode, s: seq<char>, c: char)
    requires Sane(u) && s != []
    ensures Segments(u, s) != [] && Segments(u, s)[|Segments(u, s)| - 1] != []
    ensures Segments(u, s + [c]) == Extended(u, Segments(u, s), c)
  {
    if |s| == 1 {
      assert s == [s[0]] && s + [c] == [s[0], c];
      var t := [s[0], c];
      assert SegmentsFrom(u, s, 0, 1) == [s[0..]];
      assert SegmentsFrom(u, t, 1, 2) == [t[1..]] && SegmentsFrom(u, t, 0, 2) == [t[0..]];
    } else {
      SegmentsExtend(u, s, c, 0, 1);
    }
  }

  lemma WordsPush(segments: seq<seq<char>>, segment: seq<char>)
    ensures Words(segments + [segment]) == Words(segments) + if segment == ['_'] then [] else [segment]
  {
    assert (segments + [segment])[..|segments|] == segments;
  }

  // ---------------------------------------------------------------- the tokenizer in place

  /** What the tokenizer knows of the segments it has seen: the components it has closed, and the
      letters of the one under way, of which the last is still pending. */
  ghost predicate Follows(segments: seq<seq<char>>, t: Track)
    requires segments != []
  {
    var front, last := segments[..|segments| - 1], segments[|segments| - 1];
    && last != []
    && if last == ['_'] then t == Track(Words(segments), [], None)
       else '_' !in last && t == Track(Words(front), last[..|last| - 1], Some(last[|last| - 1]))
  }

  ghost predicate Tracks(u: Unicode, text: seq<char>, t: Track) {
    if text == [] then t == Track([], [], None)
    else
      var segments := Segments(u, text);
      segments != [] && Follows(segments, t)
  }

  datatype Track = Track(closed: seq<seq<char>>, committed: seq<char>, pending: Option<char>)

  function HeldIn(t: Track): seq<char> {
    t.committed + if t.pending.Some? then [t.pending.value] else []
  }

  function Close(t: Track): Track {
    Track(t.closed + (if t.committed == [] then [] else [t.committed]), [], t.pending)
  }

  function CommitIn(t: Track, pending: Option<char>): Track {
    Track(t.closed, HeldIn(t), pending)
  }

  function LastUpper(u: Unicode, s: seq<char>): bool {
    s != [] && u.upper(s[|s| - 1])
  }

  function NextTrack(u: Unicode, t: Track, c: char): Track {
    if c == '_' then Close(CommitIn(t, None))
    else if t.pending.None? then t.(pending := Some(c))
    else if u.lower(t.pending.value) && u.upper(c) then Close(CommitIn(t, Some(c)))
    else if u.upper(t.pending.value) && u.lower(c) && LastUpper(u, t.committed) then CommitIn(Close(t), Some(c))
    else CommitIn(t, Some(c))
  }

  lemma TracksPush(u: Unicode, text: seq<char>, t: Track, c: char)
    requires Sane(u) && Tracks(u, text, t)
    ensures Tracks(u, text + [c], NextTrack(u, t, c))
  {
    if text == [] {
      assert text + [c] == [c] && [c][0..] == [c];
      assert Segments(u, [c]) == [[c]] && [[c]][..0] == [];
      assert Words([[c]][..0]) == [];
    } else {
      SegmentsPush(u, text, c);
      TracksExtend(u, Segments(u, text), t, c);
    }
  }

  lemma TracksExtend(u: Unicode, segments: seq<seq<char>>, t: Track, c: char)
    requires Sane(u) && segments != [] && Follows(segments, t)
    ensures Follows(Extended(u, segments, c), NextTrack(u, t, c))
  {
    var front, last := segments[..|segments| - 1], segments[|segments| - 1];
    assert segments == front + [last];
    WordsPush(front, last);
    WordsPush(segments, [c]);
    hide Words;
    assert (segments + [[c]])[..|segments|] == segments;
    if last != ['_'] {
      var k := |last| - 1;
      assert HeldIn(t) == last && last[..k] + [last[k]] == last;
      if Breaks(u, last[k], c) {
      } else {
        TracksInside(u, front, last[..k], last[k], c);
      }
    }
  }

  lemma FollowsWord(front: seq<seq<char>>, word: seq<char>, c: char)
    requires '_' !in word && c != '_'
    ensures Follows(front + [word + [c]], Track(Words(front), word, Some(c)))
  {
    var next, last := front + [word + [c]], word + [c];
    assert next[..|next| - 1] == front && last[..|last| - 1] == word && last[|last| - 1] == c;
  }

  lemma ExtendedInside(u: Unicode, front: seq<seq<char>>, word: seq<char>, p: char, c: char)
    requires !Breaks(u, p, c)
    ensures Extended(u, front + [word + [p]], c) ==
      if LastUpper(u, word) && u.upper(p) && u.lower(c) then front + [word] + [[p, c]] else front + [word + [p] + [c]]
  {
    var segments, last := front + [word + [p]], word + [p];
    assert segments[..|front|] == front && last[..|word|] == word && last[|word|] == p;
    assert |word| > 0 ==> last[|word| - 1] == word[|word| - 1];
    assert front + [word] + [[p, c]] == front + [word, [p, c]];
  }

  lemma TracksInside(u: Unicode, front: seq<seq<char>>, word: seq<char>, p: char, c: char)
    requires Sane(u) && '_' !in word && c != '_' && !Breaks(u, p, c)
    ensures Follows(Extended(u, front + [word + [p]], c), NextTrack(u, Track(Words(front), word, Some(p)), c))
  {
    hide Words, Follows, Extended;
    ExtendedInside(u, front, word, p, c);
    WordsPush(front, word);
    if LastUpper(u, word) && u.upper(p) && u.lower(c) {
      FollowsWord(front + [word], [p], c);
      assert [p] + [c] == [p, c] && [] + [p] == [p] && '_' in ['_'];
    } else {
      FollowsWord(front, word + [p], c);
    }
  }

  /** Closing the component under way completes the split. */
  lemma TracksFinish(u: Unicode, text: seq<char>, t: Track)
    requires Tracks(u, text, t)
    ensures Components(u, text) == Close(CommitIn(t, None)).closed
  {
    if text != [] {
      var segments := Segments(u, text);
      var front, last := segments[..|segments| - 1], segments[|segments| - 1];
      assert segments == front + [last];
      WordsPush(front, last);
      if last != ['_'] {
        assert HeldIn(t) == last;
      }
    }
  }

  lemma BlankPush(s: seq<char>, c: char)
    ensures Blank(s + [c]) <==> Blank(s) && c == '_'
  {
    assert forall i :: 0 <= i < |s| ==> (s + [c])[i] == s[i];
    assert (s + [c])[|s|] == c;
  }

  lemma TermsOfPush(u: Unicode, texts: seq<seq<char>>, text: seq<char>)
    ensures TermsOf(u, texts + [text]) == TermsOf(u, texts) + [TermOf(u, text)]
  {}

  class RunTokenizer {
    const u: Unicode
    var whole: Form
    var component: Form
    var componentHasAlphanumeric: bool
    /** The last character stays pending until the next one shows whether it begins a word. */
    var pending: Option<char>
    var committedLastUpper: bool
    var sawAlphanumeric: bool
    const dedup: FormDeduper
    ghost var text: seq<char>
    ghost var committed: seq<char>
    ghost var closed: seq<seq<char>>

    ghost predicate ComponentIs()
      reads this
    {
      && component == FormOf(u, committed)
      && (componentHasAlphanumeric <==> committed != [])
      && committedLastUpper == LastUpper(u, committed)
    }

    ghost predicate Ready()
      reads this, dedup
    {
      ComponentIs() && dedup.Valid() && dedup.inserted == TermsOf(u, closed)
    }

    ghost predicate Valid()
      reads this, dedup
    {
      && Sane(u)
      && Ready()
      && whole == FormOf(u, text)
      && (sawAlphanumeric <==> !Blank(text))
      && Tracks(u, text, Track(closed, committed, pending))
    }

    /** Everything emitted so far. */
    ghost function Emitted(): seq<Term>
      reads this, dedup
    {
      FirstOccurrences(dedup.inserted)
    }

    constructor (u: Unicode)
      requires Sane(u)
      ensures Valid() && fresh(dedup) && this.u == u && text == [] && Emitted() == []
    {
      this.u := u;
      whole, component := EMPTY_FORM, EMPTY_FORM;
      componentHasAlphanumeric, pending, committedLastUpper, sawAlphanumeric := false, None, false, false;
      dedup := new FormDeduper();
      text, committed, closed := [], [], [];
      new;
      assert TermsOf(u, []) == [];
    }

    method Push(c: char) returns (emitted: seq<Term>)
      requires Valid()
      modifies this, dedup
      ensures Valid() && text == old(text) + [c]
      ensures Emitted() == old(Emitted()) + emitted
    {
      hide Tracks, NextTrack, TermsOf, FormOf, Blank, RunTerms, FirstOccurrences, FormDeduper.Valid;
      TracksPush(u, text, Track(closed, committed, pending), c);
      BlankPush(text, c);
      whole := PushChar(u, whole, c);
      text := text + [c];
      if c != '_' {
        sawAlphanumeric := true;
      }
      emitted := Advance(c);
    }

    method Advance(c: char) returns (emitted: seq<Term>)
      requires Sane(u) && Ready()
      modifies this`component, this`componentHasAlphanumeric, this`committedLastUpper, this`committed, this`pending, this`closed, dedup
      ensures Ready() && Track(closed, committed, pending) == NextTrack(u, old(Track(closed, committed, pending)), c)
      ensures Emitted() == old(Emitted()) + emitted
    {
      hide TermsOf, FormOf, FirstOccurrences, FormDeduper.Valid;
      emitted := [];
      if c == '_' {
        CommitPending();
        emitted := FinishComponent();
        return;
      }
      var previous := pending;
      pending := Some(c);
      if previous.None? {
        return;
      }
      var p := previous.value;
      if u.lower(p) && u.upper(c) {
        CommitChar(p);
        emitted := FinishComponent();
      } else if u.upper(p) && u.upper(c) {
        CommitChar(p);
      } else if u.upper(p) && u.lower(c) && committedLastUpper {
        emitted := FinishComponent();
        CommitChar(p);
      } else {
        CommitChar(p);
      }
    }

    method Finish() returns (emitted: seq<Term>)
      requires Valid()
      modifies this, dedup
      ensures old(Emitted()) + emitted == RunTerms(u, old(text))
    {
      hide Tracks, Components, TermsOf, FormOf, Blank, FirstOccurrences, FormDeduper.Valid, TermOf, Close, CommitIn;
      TracksFinish(u, text, Track(closed, committed, pending));
      emitted := FinishLast();
      var last := FinishWhole();
      assert old(Emitted()) + (emitted + last) == (old(Emitted()) + emitted) + last;
      emitted := emitted + last;
    }

    method FinishLast() returns (emitted: seq<Term>)
      requires Ready()
      modifies this`component, this`componentHasAlphanumeric, this`committedLastUpper, this`committed, this`pending, this`closed, dedup
      ensures dedup.Valid() && dedup.inserted == TermsOf(u, Close(CommitIn(old(Track(closed, committed, pending)), None)).closed)
      ensures Emitted() == old(Emitted()) + emitted
    {
      hide TermsOf, FormOf, FirstOccurrences, FormDeduper.Valid;
      CommitPending();
      emitted := FinishComponent();
    }

    method FinishWhole() returns (emitted: seq<Term>)
      requires dedup.Valid() && whole == FormOf(u, text) && (sawAlphanumeric <==> !Blank(text))
      modifies dedup
      ensures dedup.inserted == old(dedup.inserted) + (if Blank(text) then [] else [TermOf(u, text)])
      ensures Emitted() == old(Emitted()) + emitted
    {
      hide FormOf, Blank, FirstOccurrences, FormDeduper.Valid, TermOf;
      emitted := [];
      if sawAlphanumeric {
        FinishedFormIsTerm(u, text);
        emitted := EmitForm(FinishForm(u, whole));
      }
    }

    method CommitPending()
      requires ComponentIs()
      modifies this`component, this`componentHasAlphanumeric, this`committedLastUpper, this`committed, this`pending
      ensures ComponentIs() && pending.None?
      ensures committed == old(committed) + if old(pending).Some? then [old(pending).value] else []
    {
      if pending.Some? {
        var c := pending.value;
        pending := None;
        CommitChar(c);
      }
    }

    method CommitChar(c: char)
      requires ComponentIs()
      modifies this`component, this`componentHasAlphanumeric, this`committedLastUpper, this`committed
      ensures ComponentIs() && committed == old(committed) + [c]
    {
      hide FormOf;
      component := PushChar(u, component, c);
      componentHasAlphanumeric := true;
      committedLastUpper := u.upper(c);
      committed := committed + [c];
    }

    method FinishComponent() returns (emitted: seq<Term>)
      requires Ready()
      modifies this`component, this`componentHasAlphanumeric, this`committedLastUpper, this`committed, this`closed, dedup
      ensures Ready() && committed == []
      ensures closed == old(closed) + if old(committed) == [] then [] else [old(committed)]
      ensures Emitted() == old(Emitted()) + emitted
    {
      hide FirstOccurrences, FormDeduper.Valid;
      emitted := [];
      if componentHasAlphanumeric {
        TermsOfPush(u, closed, committed);
        FinishedFormIsTerm(u, committed);
        emitted := EmitForm(FinishForm(u, component));
        closed := closed + [committed];
        component, committed := EMPTY_FORM, [];
      }
      componentHasAlphanumeric, committedLastUpper := false, false;
    }

    method EmitForm(form: Term) returns (emitted: seq<Term>)
      requires dedup.Valid()
      modifies dedup
      ensures dedup.Valid() && dedup.inserted == old(dedup.inserted) + [form]
      ensures Emitted() == old(Emitted()) + emitted
    {
      var isNew := dedup.Insert(form);
      emitted := if isNew then [form] else [];
    }
  }
}
