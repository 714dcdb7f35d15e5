/** Cutting a project file into chunks, with the lines and the bytes they came from. */
module FileChunks {
  import opened Bytes
  import opened WordForms
  import opened RunSplit
  import opened Tokenizer
  import opened OpenTerms
  import opened Chunks
  import opened ChunkTerms

  const APPROX_LINES_PER_CHUNK := 60

  type Decoded = DecodedChar<char>

  /** Lines are counted from one. */
  datatype Span = Span(startLine: nat, endLine: nat, startByte: nat, endByte: nat)

  function Newlines(text: seq<char>): nat {
    if text == [] then 0 else Newlines(text[..|text| - 1]) + if text[|text| - 1] == '\n' then 1 else 0
  }

  lemma NewlinesPush(text: seq<char>, c: char)
    ensures Newlines(text + [c]) == Newlines(text) + if c == '\n' then 1 else 0
  {
    assert (text + [c])[..|text|] == text;
  }

  // ---------------------------------------------------------------- where chunks come from

  /** A stretch of the characters, beginning at `k`, and what its chunk says about it: its lines are
      one plus the newlines before its first and before its last character. */
  ghost predicate SpanOf(ds: seq<Decoded>, k: nat, n: nat, span: Span) {
    && 0 < n && k + n <= |ds|
    && span.startByte == ds[k].start && span.endByte == ds[k + n - 1].end
    && span.startLine == 1 + Newlines(Characters(ds)[..k])
    && span.endLine == 1 + Newlines(Characters(ds)[..k + n - 1])
  }

  /** Every chunk covers the characters behind those of the chunks before it. */
  ghost predicate Located(ds: seq<Decoded>, chunks: seq<Chunk<Span>>) {
    forall i :: 0 <= i < |chunks| ==> SpanOf(ds, |Texts(chunks[..i])|, |chunks[i].text|, chunks[i].head)
  }

  lemma SpanStays(ds: seq<Decoded>, d: Decoded, k: nat, n: nat, span: Span)
    requires SpanOf(ds, k, n, span)
    ensures SpanOf(ds + [d], k, n, span)
  {
    assert Characters(ds + [d])[..k] == Characters(ds)[..k];
    assert Characters(ds + [d])[..k + n - 1] == Characters(ds)[..k + n - 1];
  }

  lemma LocatedStays(ds: seq<Decoded>, d: Decoded, chunks: seq<Chunk<Span>>)
    requires Located(ds, chunks)
    ensures Located(ds + [d], chunks)
  {
    hide SpanOf;
    forall i | 0 <= i < |chunks|
      ensures SpanOf(ds + [d], |Texts(chunks[..i])|, |chunks[i].text|, chunks[i].head)
    {
      SpanStays(ds, d, |Texts(chunks[..i])|, |chunks[i].text|, chunks[i].head);
    }
  }

  lemma LocatedPush(ds: seq<Decoded>, chunks: seq<Chunk<Span>>, c: Chunk<Span>)
    requires Located(ds, chunks) && SpanOf(ds, |Texts(chunks)|, |c.text|, c.head)
    ensures Located(ds, chunks + [c])
  {
    hide SpanOf;
    var all := chunks + [c];
    forall i | 0 <= i < |all|
      ensures SpanOf(ds, |Texts(all[..i])|, |all[i].text|, all[i].head)
    {
      if i < |chunks| {
        assert all[..i] == chunks[..i] && all[i] == chunks[i];
      } else {
        assert all[..i] == chunks;
      }
    }
  }

  lemma SpanAt(ds: seq<Decoded>, chunks: seq<Chunk<Span>>, i: nat)
    requires Located(ds, chunks) && i < |chunks|
    ensures var k, n := |Texts(chunks[..i])|, |chunks[i].text|;
      && 0 < n && k + n <= |ds| && |Texts(chunks[..i + 1])| == k + n
      && chunks[i].head.startByte == ds[k].start && chunks[i].head.endByte == ds[k + n - 1].end
  {
    assert SpanOf(ds, |Texts(chunks[..i])|, |chunks[i].text|, chunks[i].head);
    var front := chunks[..i + 1];
    assert front[..i] == chunks[..i] && front[i] == chunks[i];
    assert Texts(front) == Texts(chunks[..i]) + chunks[i].text;
    hide Texts, Newlines;
  }

  lemma NeighboursAbut(ds: seq<Decoded>, chunks: seq<Chunk<Span>>, i: nat, j: nat)
    requires Tiled(ds) && Located(ds, chunks) && j == i + 1 < |chunks|
    ensures chunks[i].head.endByte == chunks[j].head.startByte
  {
    hide Located, Texts;
    SpanAt(ds, chunks, i);
    SpanAt(ds, chunks, j);
  }

  lemma EndsMeet(ds: seq<Decoded>, chunks: seq<Chunk<Span>>)
    requires Located(ds, chunks) && Texts(chunks) == Characters(ds) && chunks != []
    ensures ds != [] && chunks[0].head.startByte == ds[0].start && chunks[|chunks| - 1].head.endByte == ds[|ds| - 1].end
  {
    hide *;
    NoneBefore(chunks);
    AllBefore(ds, chunks);
    SpanAt(ds, chunks, 0);
    SpanAt(ds, chunks, |chunks| - 1);
  }

  lemma NoneBefore(chunks: seq<Chunk<Span>>)
    ensures |Texts(chunks[..0])| == 0
  {
    assert chunks[..0] == [];
  }

  lemma AllBefore(ds: seq<Decoded>, chunks: seq<Chunk<Span>>)
    requires Texts(chunks) == Characters(ds)
    ensures |Texts(chunks[..|chunks|])| == |ds|
  {
    assert chunks[..|chunks|] == chunks;
  }

  /** The byte ranges of the chunks abut, from the first character to the last. */
  lemma ByteRangesAbut(ds: seq<Decoded>, chunks: seq<Chunk<Span>>)
    requires Tiled(ds) && Located(ds, chunks) && Texts(chunks) == Characters(ds) && chunks != []
    ensures ds != [] && chunks[0].head.startByte == ds[0].start && chunks[|chunks| - 1].head.endByte == ds[|ds| - 1].end
    ensures forall i, j :: 0 <= i && j == i + 1 < |chunks| ==> chunks[i].head.endByte == chunks[j].head.startByte
  {
    hide *;
    EndsMeet(ds, chunks);
    forall i, j | 0 <= i && j == i + 1 < |chunks|
      ensures chunks[i].head.endByte == chunks[j].head.startByte
    {
      NeighboursAbut(ds, chunks, i, j);
    }
  }

  // ---------------------------------------------------------------- binary content

  predicate Disallowed(control: char -> bool, c: char) {
    control(c) && c != '\n' && c != '\r' && c != '\t' && c != (11 as char) && c != (12 as char)
  }

  function Controls(control: char -> bool, text: seq<char>): nat {
    if text == [] then 0
    else Controls(control, text[..|text| - 1]) + if Disallowed(control, text[|text| - 1]) then 1 else 0
  }

  /** Whether the last character shows that the text is binary. */
  predicate GivenAway(control: char -> bool, text: seq<char>)
    requires text != []
  {
    var c, n := text[|text| - 1], Controls(control, text);
    c == (0 as char) || (Disallowed(control, c) && n >= 8 && n * 5 >= |text|)
  }

  /** The text has not been taken for binary at any of its characters. */
  ghost predicate Readable(control: char -> bool, text: seq<char>) {
    forall k :: 0 < k <= |text| ==> !GivenAway(control, text[..k])
  }

  /** Looking only at disallowed characters misses nothing: a text is readable exactly when it has no
      zero character and nowhere eight disallowed ones that make up a fifth of what came so far. */
  lemma ReadableExactlyWhen(control: char -> bool, text: seq<char>)
    ensures Readable(control, text) <==>
              && (forall k :: 0 <= k < |text| ==> text[k] != (0 as char))
              && (forall k :: 0 < k <= |text| ==> Controls(control, text[..k]) < 8 || Controls(control, text[..k]) * 5 < k)
  {
    if Readable(control, text) {
      forall k | 0 <= k < |text| ensures text[k] != (0 as char) {
        assert !GivenAway(control, text[..k + 1]) && text[..k + 1][k] == text[k];
      }
      forall k | 0 < k <= |text| ensures Controls(control, text[..k]) < 8 || Controls(control, text[..k]) * 5 < k {
        FewControls(control, text, k);
      }
    } else {
      var k :| 0 < k <= |text| && GivenAway(control, text[..k]);
      assert text[..k][k - 1] == text[k - 1];
    }
  }

  predicate IsSpacing(c: char) {
    c == '\t' || c == '\n' || c == '\r' || c == (11 as char) || c == (12 as char)
  }

  /** Whatever its length, a text is readable if its only control characters are tabs, line ends, and
      vertical and form feeds; and no text is that has eight others and little else. */
  lemma SpacingIsReadable(control: char -> bool, text: seq<char>)
    requires control(0 as char) && forall c :: IsSpacing(c) ==> control(c)
    ensures (forall k :: 0 <= k < |text| && control(text[k]) ==> IsSpacing(text[k])) ==> Readable(control, text)
    ensures |text| >= 8 && (forall k :: 0 <= k < |text| ==> control(text[k]) && !IsSpacing(text[k])) ==> !Readable(control, text)
  {
    ReadableExactlyWhen(control, text);
    if forall k :: 0 <= k < |text| && control(text[k]) ==> IsSpacing(text[k]) {
      forall k | 0 < k <= |text| ensures Controls(control, text[..k]) < 8 {
        ControlsOf(control, text[..k]);
      }
    }
    if |text| >= 8 && forall k :: 0 <= k < |text| ==> control(text[k]) && !IsSpacing(text[k]) {
      ControlsOf(control, text);
      assert text[..|text|] == text;
    }
  }

  lemma {:induction false} ControlsOf(control: char -> bool, text: seq<char>)
    ensures (forall k :: 0 <= k < |text| && control(text[k]) ==> IsSpacing(text[k])) ==> Controls(control, text) == 0
    ensures (forall k :: 0 <= k < |text| ==> control(text[k]) && !IsSpacing(text[k])) ==> Controls(control, text) == |text|
  {
    if text != [] {
      var front := text[..|text| - 1];
      ControlsOf(control, front);
      assert forall k :: 0 <= k < |front| ==> front[k] == text[k];
    }
  }

  lemma {:induction false} FewControls(control: char -> bool, text: seq<char>, k: nat)
    requires Readable(control, text) && 0 < k <= |text|
    ensures Controls(control, text[..k]) < 8 || Controls(control, text[..k]) * 5 < k
    decreases k
  {
    assert !GivenAway(control, text[..k]);
    assert text[..k][..k - 1] == text[..k - 1] && text[..k][k - 1] == text[k - 1];
    if k > 1 {
      FewControls(control, text, k - 1);
    }
  }

  // ---------------------------------------------------------------- where a text is cut

  /** What waits for the next chunk after `waiting` and one character more. A chunk ends before a
      character that no longer fits, and behind the one that fills it or ends its sixtieth line. */
  function Await(waiting: seq<char>, c: char): seq<char> {
    var now := Room(waiting, c) + [c];
    if Size(now) >= MAX_CHUNK_BYTES || (c == '\n' && Newlines(now) >= APPROX_LINES_PER_CHUNK) then [] else now
  }

  function Room(waiting: seq<char>, c: char): seq<char> {
    if waiting != [] && Size(waiting) + Len(c) > MAX_CHUNK_BYTES then [] else waiting
  }

  function Waiting(text: seq<char>): seq<char> {
    if text == [] then [] else Await(Waiting(text[..|text| - 1]), text[|text| - 1])
  }

  lemma WaitingPush(text: seq<char>, c: char)
    ensures Waiting(text + [c]) == Await(Waiting(text), c)
  {
    assert (text + [c])[..|text|] == text;
  }

  /** The file ends where a chunk does, inside an occurrence whose end brings terms: these find no
      chunk to go to. */
  predicate LosesTerms(u: Unicode, text: seq<char>) {
    Waiting(text) == [] && HasMore(u, Surfaces(u, text).open)
  }

  /** Its end brings terms exactly when the occurrence holds a letter or a digit, unless it is a
      single run too long to be its own term and its digest is also that of one of its components. */
  lemma LosesTermsExactlyWhen(u: Unicode, text: seq<char>)
    requires SaneText(u)
    ensures LosesTerms(u, text) ==> Waiting(text) == [] && HasAlphanumeric(u, Surfaces(u, text).open)
    ensures var open := Surfaces(u, text).open;
      && Waiting(text) == [] && HasAlphanumeric(u, open)
      && (HasSeparator(open) || (FoldsAll(u, open) && (Length(u, open) <= MAX_TERM_BYTES || TellsWhole(u, open))))
      ==> LosesTerms(u, text)
  {
    hide Waiting, HasMore, HasSeparator, HasAlphanumeric, Surfaces, FoldsAll, TellsWhole, Length;
    OpenIsWorded(u, text);
    LettersBringMore(u, Surfaces(u, text).open);
  }

  // ---------------------------------------------------------------- the chunker in place

  lemma CharactersPush(ds: seq<Decoded>, d: Decoded)
    ensures Characters(ds + [d]) == Characters(ds) + [d.character]
  {}

  /** The text under way began where `span` says. */
  ghost predicate Begun(ds: seq<Decoded>, k: nat, n: nat, span: Span) {
    k + n == |ds| && (n > 0 ==> SpanOf(ds, k, n, span))
  }

  lemma BegunPush(ds: seq<Decoded>, k: nat, n: nat, span: Span, d: Decoded, line: nat)
    requires Begun(ds, k, n, span) && line == 1 + Newlines(Characters(ds))
    ensures Begun(ds + [d], k, n + 1, Span(if n == 0 then line else span.startLine, line, if n == 0 then d.start else span.startByte, d.end))
  {
    var all := ds + [d];
    assert Characters(all)[..|ds|] == Characters(ds);
    if n > 0 {
      assert Characters(all)[..k] == Characters(ds)[..k];
    }
  }

  ghost predicate Full(chunks: seq<Chunk<Span>>) {
    chunks != [] && Size(chunks[|chunks| - 1].text) == MAX_CHUNK_BYTES
  }

  ghost predicate EndsChunk(ds: seq<Decoded>, chunks: seq<Chunk<Span>>) {
    ds == [] || Full(chunks) || ds[|ds| - 1].character == '\n'
  }

  ghost predicate FewLines(chunks: seq<Chunk<Span>>) {
    forall i :: 0 <= i < |chunks| ==> Newlines(chunks[i].text) <= APPROX_LINES_PER_CHUNK
  }

  /** A chunk that is full, or has just ended its sixtieth line. */
  predicate Filled(text: seq<char>) {
    || Size(text) >= MAX_CHUNK_BYTES
    || (text != [] && text[|text| - 1] == '\n' && Newlines(text) >= APPROX_LINES_PER_CHUNK)
  }

  predicate EndsBefore(text: seq<char>, next: seq<char>) {
    Filled(text) || NoRoom(text, next)
  }

  /** No chunk ends before another without a reason. */
  ghost predicate AllEnded(chunks: seq<Chunk<Span>>) {
    forall i, j :: 0 <= i && j == i + 1 < |chunks| ==> EndsBefore(chunks[i].text, chunks[j].text)
  }

  ghost predicate EndedFor(chunks: seq<Chunk<Span>>, waiting: seq<char>) {
    && AllEnded(chunks)
    && (chunks != [] ==> var last := chunks[|chunks| - 1].text; if waiting == [] then Filled(last) else EndsBefore(last, waiting))
  }

  lemma EndedPush(chunks: seq<Chunk<Span>>, c: Chunk<Span>)
    requires EndedFor(chunks, c.text) && c.text != []
    ensures AllEnded(chunks + [c])
  {
    hide Filled, EndsBefore;
    var all := chunks + [c];
    forall i, j | 0 <= i && j == i + 1 < |all| ensures EndsBefore(all[i].text, all[j].text) {
      assert all[i] == chunks[i];
      if j < |chunks| {
        assert all[j] == chunks[j];
      }
    }
  }

  /** A character comes: the text waiting is cut off first if there is no room. */
  lemma EndedGrows(chunks: seq<Chunk<Span>>, text: seq<char>, tokens: seq<Term>, span: Span, c: char)
    requires EndedFor(chunks, text)
    ensures Room(text, c) == text ==> EndedFor(chunks, text + [c])
    ensures Room(text, c) != text ==> Room(text, c) == [] && EndedFor(chunks + [MakeChunk(text, tokens, span)], [c])
  {
    hide Filled, AllEnded;
    if Room(text, c) == text {
      assert text != [] ==> (text + [c])[0] == text[0];
      hide Size, Len;
    } else {
      EndedPush(chunks, MakeChunk(text, tokens, span));
      assert EndsBefore(text, [c]);
      hide Size, Len, EndsBefore;
    }
  }

  lemma EndedLast(chunks: seq<Chunk<Span>>, text: seq<char>, tokens: seq<Term>, span: Span)
    requires EndedFor(chunks, text) && text != []
    ensures AllEnded(chunks + [MakeChunk(text, tokens, span)])
  {
    EndedPush(chunks, MakeChunk(text, tokens, span));
  }

  lemma IsFilled(text: seq<char>, c: char, lines: nat)
    requires text != [] && text[|text| - 1] == c && lines == Newlines(text)
    ensures Size(text) >= MAX_CHUNK_BYTES || (c == '\n' && lines >= APPROX_LINES_PER_CHUNK) ==> Filled(text)
  {}

  lemma EndedFilled(chunks: seq<Chunk<Span>>, text: seq<char>, tokens: seq<Term>, span: Span)
    requires EndedFor(chunks, text) && text != [] && Filled(text)
    ensures EndedFor(chunks + [MakeChunk(text, tokens, span)], [])
  {
    hide Filled, AllEnded, EndsBefore;
    EndedPush(chunks, MakeChunk(text, tokens, span));
  }

  ghost predicate CutTo(ds: seq<Decoded>, output: seq<Chunk<Span>>, text: seq<char>, tokens: seq<Term>, span: Span, lines: nat, emitted: seq<Term>) {
    && Cutting(output, text, tokens, Characters(ds), emitted)
    && Located(ds, output) && Begun(ds, |Texts(output)|, |text|, span)
    && (text == [] ==> tokens == [])
    && lines == Newlines(text) && lines <= APPROX_LINES_PER_CHUNK && FewLines(output)
  }

  lemma TakenIn(ds: seq<Decoded>, output: seq<Chunk<Span>>, text: seq<char>, tokens: seq<Term>, span: Span, lines: nat, emitted: seq<Term>,
                d: Decoded, more: seq<Term>, line: nat)
    requires CutTo(ds, output, text, tokens, span, lines, emitted) && lines < APPROX_LINES_PER_CHUNK
    requires Size(text) + Len(d.character) <= MAX_CHUNK_BYTES && line == 1 + Newlines(Characters(ds))
    ensures CutTo(ds + [d], output, text + [d.character], tokens + more,
                  Span(if text == [] then line else span.startLine, line, if text == [] then d.start else span.startByte, d.end),
                  lines + if d.character == '\n' then 1 else 0, emitted + more)
  {
    CharactersPush(ds, d);
    NewlinesPush(text, d.character);
    hide Cutting, Located, Begun, Newlines, Characters, Size, Len, Texts, FewLines;
    LocatedStays(ds, d, output);
    Grow(output, text, tokens, Characters(ds), emitted, d.character, more);
    BegunPush(ds, |Texts(output)|, |text|, span, d, line);
  }

  lemma CutOff(ds: seq<Decoded>, output: seq<Chunk<Span>>, text: seq<char>, tokens: seq<Term>, span: Span, lines: nat, emitted: seq<Term>)
    requires CutTo(ds, output, text, tokens, span, lines, emitted) && text != []
    ensures CutTo(ds, output + [MakeChunk(text, tokens, span)], [], [], span, 0, emitted)
  {
    var chunk := MakeChunk(text, tokens, span);
    NoNewlines();
    assert FewLines(output + [chunk]);
    hide Cutting, Located, Newlines, Size, Texts, FewLines, SpanOf;
    Chunks.Cut(output, text, tokens, Characters(ds), emitted, span);
    LocatedPush(ds, output, chunk);
    TextsPush(output, chunk);
  }

  lemma NoText(ds: seq<Decoded>, output: seq<Chunk<Span>>, text: seq<char>, tokens: seq<Term>, span: Span, lines: nat, emitted: seq<Term>)
    requires CutTo(ds, output, text, tokens, span, lines, emitted)
    ensures text == [] ==> lines == 0 && tokens == []
    ensures text != [] ==> Characters(ds) != []
  {
    NoNewlines();
    hide Located, Begun, FewLines, Newlines, Characters;
    assert |Texts(output) + text| == |Texts(output)| + |text|;
  }

  class Chunker {
    const u: Unicode
    const control: char -> bool
    var text: seq<char>
    var tokens: seq<Term>
    var tokenizer: StreamingTokenizer
    var decodedChars: nat
    var disallowedControls: nat
    var span: Span
    var currentLine: nat
    var lines: nat
    var output: seq<Chunk<Span>>
    ghost var decoded: seq<Decoded>
    ghost var emitted: seq<Term>
    ghost var footprint: set<object>

    ghost function Whole(): seq<char>
      reads this
    {
      Characters(decoded)
    }

    /** What has been cut off, and what waits. */
    ghost predicate Cuts()
      reads this
    {
      CutTo(decoded, output, text, tokens, span, lines, emitted)
    }

    ghost predicate Places()
      reads this`output
    {
      PlacedSoFar(u, output)
    }

    ghost predicate Counts()
      reads this
    {
      && decodedChars == |Whole()| && disallowedControls == Controls(control, Whole())
      && currentLine == if Whole() == [] then 0 else 1 + Newlines(Whole())
    }

    ghost predicate Valid()
      reads this, footprint
    {
      && SaneText(u) && this !in footprint
      && Hears(tokenizer, footprint, u, Whole(), emitted)
      && Cuts() && Places() && Counts()
    }

    constructor (u: Unicode, control: char -> bool)
      requires SaneText(u)
      ensures Ready() && this.u == u && this.control == control && decoded == [] && output == [] && fresh(footprint)
    {
      this.u, this.control := u, control;
      text, tokens, decodedChars, disallowedControls, currentLine, lines, output := [], [], 0, 0, 0, 0, [];
      span := Span(0, 0, 0, 0);
      var t;
      ghost var fp;
      t, fp := NewTokenizer(u);
      tokenizer, footprint := t, fp;
      decoded, emitted := [], [];
      new;
      assert Size([]) == 0;
      NothingPlaced(u, output);
    }

    method Flush()
      requires Cuts() && Places()
      modifies this`text, this`tokens, this`lines, this`output
      ensures Placed(u, output) && (emitted == SoFar(u, Whole()) ==> Places())
      ensures Cuts() && text == [] && lines == 0 && output == if old(text) == [] then old(output) else old(output) + [MakeChunk(old(text), old(tokens), span)]
    {
      hide CutTo, MakeChunk, SoFar, Placed, PlacedAt, Characters;
      if text == [] {
        NoText(decoded, output, text, tokens, span, lines, emitted);
        lines := 0;
        return;
      }
      CutOff(decoded, output, text, tokens, span, lines, emitted);
      assert Cutting(output, text, tokens, Whole(), emitted) by { IsCutting(decoded, output, text, tokens, span, lines, emitted); }
      hide Cutting;
      PlacedPush(u, output, text, tokens, Whole(), emitted, span);
      output := output + [MakeChunk(text, tokens, span)];
      text, tokens, lines := [], [], 0;
    }

    /** A zero character, or too many control characters, mean binary content. */
    method Inspect(c: char) returns (ok: bool)
      requires decodedChars == |Whole()| && disallowedControls == Controls(control, Whole())
      modifies this`decodedChars, this`disallowedControls
      ensures ok <==> !GivenAway(control, Whole() + [c])
      ensures ok ==> decodedChars == |Whole()| + 1 && disallowedControls == Controls(control, Whole() + [c])
    {
      assert (Whole() + [c])[..|Whole()|] == Whole();
      hide Characters;
      if c == (0 as char) {
        return false;
      }
      decodedChars := decodedChars + 1;
      if Disallowed(control, c) {
        disallowedControls := disallowedControls + 1;
        if disallowedControls >= 8 && disallowedControls * 5 >= decodedChars {
          return false;
        }
      }
      ok := true;
    }

    method MakeRoom(c: char)
      requires Cuts() && Places() && emitted == SoFar(u, Whole())
      modifies this`text, this`tokens, this`lines, this`output
      ensures Places()
      ensures Cuts() && Size(text) + Len(c) <= MAX_CHUNK_BYTES && lines <= old(lines) && text == Room(old(text), c)
      ensures output == if text == old(text) then old(output) else old(output) + [MakeChunk(old(text), old(tokens), span)]
    {
      assert text == [] ==> Size(text) == 0;
      assert Size([]) == 0;
      hide Size, Len, Cuts, Places, SoFar, Placed;
      if text != [] && Size(text) + Len(c) > MAX_CHUNK_BYTES {
        Flush();
      }
    }

    /** The character joins the chunk under way, with the terms it completes. */
    method TakeIn(d: Decoded, more: seq<Term>)
      requires Cuts() && lines < APPROX_LINES_PER_CHUNK && Size(text) + Len(d.character) <= MAX_CHUNK_BYTES
      requires currentLine == if Whole() == [] then 0 else 1 + Newlines(Whole())
      modifies this`text, this`tokens, this`span, this`currentLine, this`lines, this`decoded, this`emitted
      ensures Cuts() && decoded == old(decoded) + [d] && emitted == old(emitted) + more && text == old(text) + [d.character]
      ensures currentLine == 1 + Newlines(Whole()) && lines == old(lines) + if d.character == '\n' then 1 else 0
    {
      ghost var ds, line := decoded, 1 + Newlines(Whole());
      hide CutTo, Newlines, Characters, Size, Len;
      CharactersPush(ds, d);
      NewlinesPush(Whole(), d.character);
      NoNewlines();
      NoText(ds, output, text, tokens, span, lines, emitted);
      TakenIn(ds, output, text, tokens, span, lines, emitted, d, more, line);
      if text == [] {
        if currentLine == 0 {
          currentLine := 1;
        }
        span := span.(startLine := currentLine, startByte := d.start);
      }
      assert currentLine == line;
      text := text + [d.character];
      span := span.(endLine := currentLine, endByte := d.end);
      tokens := tokens + more;
      if d.character == '\n' {
        lines := lines + 1;
        currentLine := currentLine + 1;
      }
      decoded, emitted := decoded + [d], emitted + more;
    }

    /** Between two characters. No text is waiting only if a chunk has just been filled or a line ended. */
    ghost predicate Ready()
      reads this, footprint
    {
      && Valid() && lines < APPROX_LINES_PER_CHUNK
      && text == Waiting(Whole()) && (text == [] ==> EndsChunk(decoded, output))
      && EndedFor(output, text)
    }

    /** Takes a decoded character, unless it shows that the file is binary. */
    method Push(d: Decoded) returns (ok: bool)
      requires Ready()
      modifies this, footprint
      ensures ok <==> !GivenAway(control, Characters(old(decoded) + [d]))
      ensures ok ==> Ready() && decoded == old(decoded) + [d] && fresh(footprint - old(footprint))
    {
      hide CutTo, Hears, SaneText, Characters, GivenAway, Newlines, Controls, Size, Len, Full, Waiting, Room, Places, SoFar, MakeChunk;
      CharactersPush(decoded, d);
      WaitingPush(Whole(), d.character);
      ok := Inspect(d.character);
      if !ok {
        return;
      }
      EmittedIs(tokenizer, footprint, u, Whole(), emitted);
      EndedGrows(output, text, tokens, span, d.character);
      hide EndedFor, Filled;
      MakeRoom(d.character);
      assert [] + [d.character] == [d.character] && EndedFor(output, text + [d.character]);
      ghost var whole := Whole();
      var more;
      more, footprint := Hear(tokenizer, footprint, u, whole, emitted, d.character);
      TakeIn(d, more);
      CharactersPush(old(decoded), d);
      CutIfFilled(d.character);
    }

    /** After a character: a chunk that it has filled, or of which it has ended the last line, is cut off. */
    method CutIfFilled(c: char)
      requires Valid() && decoded != [] && decoded[|decoded| - 1].character == c
      requires text != [] && text[|text| - 1] == c && EndedFor(output, text)
      requires Waiting(Whole()) == if Size(text) >= MAX_CHUNK_BYTES || (c == '\n' && Newlines(text) >= APPROX_LINES_PER_CHUNK) then [] else text
      requires lines < APPROX_LINES_PER_CHUNK || c == '\n'
      modifies this`text, this`tokens, this`lines, this`output
      ensures Ready()
    {
      hide CutTo, Hears, SaneText, Characters, Newlines, Controls, Size, Full, Waiting, Places, SoFar, MakeChunk, EndedFor, Filled;
      assert lines == Newlines(text) by { LinesAre(decoded, output, text, tokens, span, lines, emitted); }
      if Size(text) >= MAX_CHUNK_BYTES || (c == '\n' && lines >= APPROX_LINES_PER_CHUNK) {
        BoundedText(decoded, output, text, tokens, span, lines, emitted);
        IsFilled(text, c, lines);
        EndedFilled(output, text, tokens, span);
        JustFull(output, text, tokens, span);
        EmittedIs(tokenizer, footprint, u, Whole(), emitted);
        Flush();
      }
    }

    /** Ends the file. The terms that only its end completes go with the text that is waiting; if
        none is, they go nowhere. */
    method Finish()
      requires Ready()
      modifies this, footprint
      ensures decoded == old(decoded) && Located(decoded, output) && Proper(output) && FewLines(output)
      ensures Texts(output) == Characters(decoded) && Placed(u, output) && AllEnded(output)
      ensures Terms(output) == if Waiting(Characters(decoded)) == [] then SoFar(u, Characters(decoded)) else Tokens(u, Characters(decoded))
      ensures Waiting(Characters(decoded)) == [] ==> EndsChunk(decoded, output)
    {
      hide CutTo, Hears, SaneText, Characters, Tokens, SoFar, Full, Located, Proper, FewLines, Texts, Terms, Newlines, Controls, MakeChunk, Waiting, Placed, AllEnded, Filled, EndsBefore;
      EmittedIs(tokenizer, footprint, u, Whole(), emitted);
      var last := HearEnd(tokenizer, footprint, u, Whole(), emitted);
      if text == [] {
        AllCut(decoded, output, tokens, span, lines, emitted);
        tokens := tokens + last;
        lines := 0;
        return;
      }
      MoreTokens(decoded, output, text, tokens, span, lines, emitted, last);
      tokens := tokens + last;
      emitted := emitted + last;
      EndedLast(output, text, tokens, span);
      Flush();
      AllCut(decoded, output, tokens, span, lines, emitted);
    }
  }

  lemma IsCutting(ds: seq<Decoded>, output: seq<Chunk<Span>>, text: seq<char>, tokens: seq<Term>, span: Span, lines: nat, emitted: seq<Term>)
    requires CutTo(ds, output, text, tokens, span, lines, emitted)
    ensures Cutting(output, text, tokens, Characters(ds), emitted)
  {}

  lemma LinesAre(ds: seq<Decoded>, output: seq<Chunk<Span>>, text: seq<char>, tokens: seq<Term>, span: Span, lines: nat, emitted: seq<Term>)
    requires CutTo(ds, output, text, tokens, span, lines, emitted)
    ensures lines == Newlines(text)
  {}

  lemma BoundedText(ds: seq<Decoded>, output: seq<Chunk<Span>>, text: seq<char>, tokens: seq<Term>, span: Span, lines: nat, emitted: seq<Term>)
    requires CutTo(ds, output, text, tokens, span, lines, emitted)
    ensures Size(text) <= MAX_CHUNK_BYTES
  {}

  lemma JustFull(output: seq<Chunk<Span>>, text: seq<char>, tokens: seq<Term>, span: Span)
    ensures Size(text) == MAX_CHUNK_BYTES ==> Full(output + [MakeChunk(text, tokens, span)])
  {}

  /** The last terms join the text that is waiting. */
  lemma MoreTokens(ds: seq<Decoded>, output: seq<Chunk<Span>>, text: seq<char>, tokens: seq<Term>, span: Span, lines: nat, emitted: seq<Term>, last: seq<Term>)
    requires CutTo(ds, output, text, tokens, span, lines, emitted) && text != []
    ensures CutTo(ds, output, text, tokens + last, span, lines, emitted + last)
  {
    hide Located, Begun, FewLines, Newlines, Texts, Size, Proper;
    assert Terms(output) + (tokens + last) == Terms(output) + tokens + last;
  }

  lemma AllCut(ds: seq<Decoded>, output: seq<Chunk<Span>>, tokens: seq<Term>, span: Span, lines: nat, emitted: seq<Term>)
    requires CutTo(ds, output, [], tokens, span, lines, emitted)
    ensures Located(ds, output) && Proper(output) && FewLines(output) && Texts(output) == Characters(ds) && Terms(output) == emitted
  {
    hide Located, Begun, FewLines, Newlines, Size, Proper;
    assert Texts(output) + [] == Texts(output) && Terms(output) + [] == Terms(output);
  }

  lemma NoNewlines()
    ensures Newlines([]) == 0
  {}

  lemma TextsPush(chunks: seq<Chunk<Span>>, c: Chunk<Span>)
    ensures Texts(chunks + [c]) == Texts(chunks) + c.text
  {
    assert (chunks + [c])[..|chunks|] == chunks;
  }

  /** A whole file: it is cut unless it turns out to be binary; the chunks are bounded, hold the text
      in order, end only where they must, say which lines and bytes they come from, and carry the terms
      of the text, unless the file ends inside an occurrence exactly where a chunk does. */
  method ChunkFile(u: Unicode, control: char -> bool, ds: seq<Decoded>) returns (ok: bool, chunks: seq<Chunk<Span>>)
    requires SaneText(u)
    ensures ok <==> Readable(control, Characters(ds))
    ensures ok ==> Proper(chunks) && FewLines(chunks) && Located(ds, chunks) && Texts(chunks) == Characters(ds)
    ensures ok ==> Placed(u, chunks) && AllEnded(chunks)
    ensures ok && Waiting(Characters(ds)) == [] ==> EndsChunk(ds, chunks)
    ensures ok ==> Terms(chunks) <= Tokens(u, Characters(ds))
    ensures ok ==> (Terms(chunks) != Tokens(u, Characters(ds)) <==> LosesTerms(u, Characters(ds)))
    ensures ok && Tiled(ds) && chunks != [] ==>
              forall i, j :: 0 <= i && j == i + 1 < |chunks| ==> chunks[i].head.endByte == chunks[j].head.startByte
  {
    hide SaneText, Chunker.Valid, CutTo, GivenAway, Tokens, SoFar, Located, Proper, FewLines, Texts, Terms, EndsChunk, Tiled, Placed, HasMore, Waiting, Surfaces, AllEnded, EndedFor;
    chunks := [];
    var chunker := new Chunker(u, control);
    for i := 0 to |ds|
      invariant chunker.Ready() && chunker.u == u && chunker.control == control && chunker.decoded == ds[..i]
      invariant fresh(chunker) && fresh(chunker.footprint)
      invariant Readable(control, Characters(ds[..i]))
    {
      assert ds[..i + 1] == ds[..i] + [ds[i]];
      ok := chunker.Push(ds[i]);
      ReadableNext(control, ds, i);
      if !ok {
        return;
      }
    }
    assert ds[..|ds|] == ds;
    chunker.Finish();
    ok, chunks := true, chunker.output;
    MoreToComeExactlyWhen(u, Characters(ds));
    if Tiled(ds) && chunks != [] {
      ByteRangesAbut(ds, chunks);
    }
  }

  lemma ReadableNext(control: char -> bool, ds: seq<Decoded>, i: nat)
    requires i < |ds| && Readable(control, Characters(ds[..i]))
    ensures GivenAway(control, Characters(ds[..i + 1])) ==> !Readable(control, Characters(ds))
    ensures !GivenAway(control, Characters(ds[..i + 1])) ==> Readable(control, Characters(ds[..i + 1]))
  {
    hide GivenAway;
    var text, front := Characters(ds[..i + 1]), Characters(ds[..i]);
    assert Characters(ds)[..i + 1] == text && text[..|text|] == text;
    forall k | 0 < k <= i ensures text[..k] == front[..k] {}
  }

  // ---------------------------------------------------------------- files that lose terms

  lemma {:induction false} NothingCutYet(text: seq<char>)
    requires Size(text) < MAX_CHUNK_BYTES && Newlines(text) < APPROX_LINES_PER_CHUNK
    ensures Waiting(text) == text
  {
    if text != [] {
      var front, c := text[..|text| - 1], text[|text| - 1];
      assert text == front + [c];
      NothingCutYet(front);
    }
  }

  /** A text that is as long as a chunk may be, and has few lines, fills its first chunk. */
  lemma FillsChunk(text: seq<char>)
    requires Size(text) == MAX_CHUNK_BYTES && Newlines(text) < APPROX_LINES_PER_CHUNK
    ensures Waiting(text) == []
  {
    var front, c := text[..|text| - 1], text[|text| - 1];
    assert text == front + [c];
    NothingCutYet(front);
    assert Room(front, c) == front;
  }

  /** A text of complete occurrences, then a compound that has not ended. */
  function Open(front: seq<char>, separator: char, word: seq<char>): seq<char> {
    front + ([separator] + word)
  }

  ghost predicate Opens(u: Unicode, front: seq<char>, separator: char, word: seq<char>) {
    && (front == [] || IsDelimiter(u, front[|front| - 1]))
    && IsSurfaceSeparator(separator) && PlainWord(u, word) && word != []
  }

  lemma OpenBegins(u: Unicode, front: seq<char>, separator: char)
    requires SaneText(u) && (front == [] || IsDelimiter(u, front[|front| - 1])) && IsSurfaceSeparator(separator)
    ensures PartsOf(u, front + [separator]) == Parts(Tokens(u, front), [separator], [])
  {
    hide PartsOf, Tokens, RunTerms;
    DelimiterCloses(u, front);
    PartsPush(u, front, separator);
    assert Tokens(u, front) + [] == Tokens(u, front) && [] + [separator] == [separator];
  }

  lemma OpenPush(front: seq<char>, separator: char, start: seq<char>, c: char)
    ensures Open(front, separator, start + [c]) == Open(front, separator, start) + [c]
    ensures [separator] + (start + [c]) == [separator] + start + [c]
  {}

  lemma OpenNothing(front: seq<char>, separator: char)
    ensures Open(front, separator, []) == front + [separator] && [separator] + [] == [separator]
  {}

  lemma {:induction false} OpenParts(u: Unicode, front: seq<char>, separator: char, word: seq<char>)
    requires SaneText(u) && (front == [] || IsDelimiter(u, front[|front| - 1]))
    requires IsSurfaceSeparator(separator) && PlainWord(u, word)
    ensures PartsOf(u, Open(front, separator, word)) == Parts(Tokens(u, front), [separator] + word, word)
    decreases |word|
  {
    hide PartsOf, Tokens, Open, SaneText, IsDelimiter, IsSurfaceSeparator, Closed;
    if word == [] {
      OpenBegins(u, front, separator);
      OpenNothing(front, separator);
    } else {
      var start, c := word[..|word| - 1], word[|word| - 1];
      assert IsWord(u, c) && start + [c] == word;
      OpenParts(u, front, separator, start);
      OpenPush(front, separator, start, c);
      PartsPush(u, Open(front, separator, start), c);
    }
  }

  lemma OpenGives(u: Unicode, front: seq<char>, separator: char, word: seq<char>)
    requires SaneText(u) && Opens(u, front, separator, word)
    ensures SoFar(u, Open(front, separator, word)) == Tokens(u, front)
    ensures Surfaces(u, Open(front, separator, word)).open == [separator] + word
  {
    OpenParts(u, front, separator, word);
    hide Tokens, SaneText, Open, RunSoFar, Split;
    PlainRunGivesNothing(u, word);
    assert Tokens(u, front) + [] == Tokens(u, front);
  }

  /** Whatever complete occurrences it begins with, a file that then fills its first chunk to the
      byte with a compound that has not ended loses the terms of that compound. */
  lemma FullChunkLosesTerms(u: Unicode, front: seq<char>, separator: char, word: seq<char>)
    requires SaneText(u) && Opens(u, front, separator, word)
    requires var text := Open(front, separator, word); Size(text) == MAX_CHUNK_BYTES && Newlines(text) < APPROX_LINES_PER_CHUNK
    ensures var text := Open(front, separator, word);
      && LosesTerms(u, text) && HasSeparator(Surfaces(u, text).open)
      && SoFar(u, text) == Tokens(u, front) != Tokens(u, text)
  {
    var text := Open(front, separator, word);
    FillsChunk(text);
    OpenGives(u, front, separator, word);
    OpenHas(u, separator, word);
    MoreToComeExactlyWhen(u, text);
    hide Tokens, SaneText, Size, Newlines, Open, SoFar, Waiting, Surfaces, HasAlphanumeric, HasSeparator;
  }

  lemma OpenHas(u: Unicode, separator: char, word: seq<char>)
    requires PlainWord(u, word) && word != [] && IsSurfaceSeparator(separator)
    ensures HasAlphanumeric(u, [separator] + word) && HasSeparator([separator] + word)
  {
    var surface := [separator] + word;
    assert surface[0] == separator && surface[1] == word[0];
  }

  /** A file that is one word without capitals or underscores and fills a chunk to the byte loses it. */
  lemma FullWordIsLost(u: Unicode, word: seq<char>)
    requires SaneText(u) && PlainWord(u, word)
    requires Size(word) == MAX_CHUNK_BYTES && Newlines(word) < APPROX_LINES_PER_CHUNK
    ensures LosesTerms(u, word) && SoFar(u, word) == []
  {
    hide SaneText, PartsOf, TrackOf, Waiting, Newlines;
    assert word != [] by { assert Size([]) == 0; }
    hide Size;
    FillsChunk(word);
    PlainParts(u, word);
    PlainGivesNothing(u, word);
    SurfaceIs(u, word);
    WordHasMore(u, word);
  }

  lemma WordHasMore(u: Unicode, word: seq<char>)
    requires SaneText(u) && PlainWord(u, word) && word != []
    ensures HasMore(u, word)
  {
    assert forall i :: 0 <= i < |word| ==> !IsSurfaceSeparator(word[i]);
    PlainTrack(u, word);
    hide TrackOf, SaneText, PlainWord;
    var more := ToCome(u, word);
    assert more != [] && TermOf(u, more[0]) !in TermsOf(u, []);
  }

  lemma SurfaceIs(u: Unicode, text: seq<char>)
    ensures Surfaces(u, text).open == PartsOf(u, text).surface
  {}

  /** There are files of both kinds: a full stop and as many letters as then fit, or letters only. */
  lemma SomeFilesLoseTerms(u: Unicode)
    requires SaneText(u) && u.alphanumeric('a') && !u.upper('a')
    ensures var text := ['.'] + Letters(MAX_CHUNK_BYTES - 1);
      Size(text) == MAX_CHUNK_BYTES && LosesTerms(u, text) && SoFar(u, text) == []
    ensures var text := Letters(MAX_CHUNK_BYTES); Size(text) == MAX_CHUNK_BYTES && LosesTerms(u, text) && SoFar(u, text) == []
  {
    var word, whole := Letters(MAX_CHUNK_BYTES - 1), Letters(MAX_CHUNK_BYTES);
    assert Open([], '.', word) == ['.'] + word;
    assert word != [] by { assert |word| == MAX_CHUNK_BYTES - 1; }
    hide Tokens, SaneText, SoFar, HasMore, Surfaces, HasSeparator, Size, Newlines, Waiting, PlainWord;
    LettersArePlain(u, MAX_CHUNK_BYTES - 1);
    LettersArePlain(u, MAX_CHUNK_BYTES);
    SizeAndLines(word);
    LettersHaveNoLines(MAX_CHUNK_BYTES);
    hide Letters;
    FullWordIsLost(u, whole);
    FullChunkLosesTerms(u, [], '.', word);
    assert Tokens(u, []) == [] by { NothingOpen(u); }
  }

  lemma {:induction false} LettersHaveNoLines(n: nat)
    ensures Newlines(Letters(n)) == 0
  {
    if n > 0 {
      assert Letters(n)[..n - 1] == Letters(n - 1);
      LettersHaveNoLines(n - 1);
    }
  }

  lemma {:induction false} SizeAndLines(word: seq<char>)
    requires '\n' !in word
    ensures Size(['.'] + word) == 1 + Size(word) && Newlines(['.'] + word) == 0
    decreases |word|
  {
    if word == [] {
      assert ['.'] + word == ['.'] && ['.'][..0] == [];
    } else {
      var front, c := word[..|word| - 1], word[|word| - 1];
      assert ['.'] + word == ['.'] + front + [c] && word == front + [c];
      SizeAndLines(front);
      SizePush(['.'] + front, c);
      NewlinesPush(['.'] + front, c);
    }
  }

  /** What is lost from a single chunk is restored exactly if the chunk carries no terms at all, for
      the store then tokenizes it. If it carries any, what was lost stays lost. */
  lemma StoreRestoresExactlyWhen(u: Unicode, text: seq<char>, span: Span)
    requires SaneText(u) && HasMore(u, Surfaces(u, text).open)
    ensures IndexedAll(u, [MakeChunk(text, SoFar(u, text), span)]) == Tokens(u, text) <==> SoFar(u, text) == []
  {
    hide Tokens, SaneText, SoFar, HasMore, Surfaces;
    MoreToComeExactlyWhen(u, text);
    var chunk := MakeChunk(text, SoFar(u, text), span);
    assert [chunk][..0] == [];
    assert IndexedAll(u, [chunk]) == [] + Indexed(u, chunk) == Indexed(u, chunk);
  }
}
