/** A project file from its bytes to its chunks: the encoding its first bytes announce, the decoder
    fed with whatever the reads deliver, and the chunker. */
module FileReading {
  import opened Bytes
  import opened Collections
  import opened Utf8
  import opened Utf16
  import opened WordForms
  import opened Tokenizer
  import opened OpenTerms
  import opened Chunks
  import opened ChunkTerms
  import opened FileChunks

  datatype Encoding = Utf8Text | Utf16Text(bigEndian: bool)

  /** The encoding, and how many bytes announce it. */
  function Detect(bytes: seq<byte>): (Encoding, nat) {
    if [0xEF, 0xBB, 0xBF] <= bytes then (Utf8Text, 3)
    else if [0xFF, 0xFE] <= bytes then (Utf16Text(false), 2)
    else if [0xFE, 0xFF] <= bytes then (Utf16Text(true), 2)
    else (Utf8Text, 0)
  }

  /** The byte order mark, U+FEFF, as it is spelled in an encoding. */
  function Mark(kind: Encoding): seq<byte> {
    EncodeText(kind, [0xFEFF])
  }

  lemma MarksAre()
    ensures Mark(Utf8Text) == [0xEF, 0xBB, 0xBF] && Mark(Utf16Text(false)) == [0xFF, 0xFE] && Mark(Utf16Text(true)) == [0xFE, 0xFF]
  {
    var mark: seq<Scalar>, none: seq<Scalar> := [0xFEFF], [];
    assert mark[..0] == none;
  }

  /** A file that begins with the byte order mark in one of the three encodings is in that encoding
      and its text begins behind the mark; any other is UTF-8 from its first byte. */
  lemma MarkDecides(bytes: seq<byte>, kind: Encoding)
    ensures Mark(kind) <= bytes ==> Detect(bytes) == (kind, |Mark(kind)|)
    ensures !(exists k :: Mark(k) <= bytes) ==> Detect(bytes) == (Utf8Text, 0)
  {
    MarksAre();
    hide Mark;
    if Mark(kind) <= bytes {
      match kind
      case Utf8Text => assert bytes[0] == 0xEF;
      case Utf16Text(bigEndian) => assert bytes[0] == if bigEndian then 0xFE else 0xFF;
    }
  }

  lemma DetectIsShort(prefix: seq<byte>, rest: seq<byte>)
    requires |prefix| == 3 || rest == []
    ensures Detect(prefix + rest) == Detect(prefix) && Detect(prefix).1 <= |prefix|
  {
    assert rest == [] ==> prefix + rest == prefix;
  }

  // ---------------------------------------------------------------- decoding, in either encoding

  function EncodeText(kind: Encoding, cs: seq<Scalar>): seq<byte> {
    match kind
    case Utf8Text => EncodeAll(cs)
    case Utf16Text(bigEndian) => EncodeAll16(bigEndian, cs)
  }

  ghost predicate WellEncoded(kind: Encoding, bytes: seq<byte>) {
    exists cs: seq<Scalar> :: EncodeText(kind, cs) == bytes
  }

  /** The characters that the decoder has made of the bytes. */
  function OutOf(kind: Encoding, offset: nat, bytes: seq<byte>): seq<DecodedChar<Scalar>> {
    match kind
    case Utf8Text => Fed(Start(offset), bytes).out
    case Utf16Text(bigEndian) => Fed16(bigEndian, Start16(offset), bytes).out
  }

  predicate Fails(kind: Encoding, offset: nat, bytes: seq<byte>) {
    match kind
    case Utf8Text => Fed(Start(offset), bytes).failed
    case Utf16Text(bigEndian) => Fed16(bigEndian, Start16(offset), bytes).failed
  }

  predicate Accepted(kind: Encoding, offset: nat, bytes: seq<byte>) {
    match kind
    case Utf8Text => Accepts(Fed(Start(offset), bytes))
    case Utf16Text(bigEndian) => Accepts16(Fed16(bigEndian, Start16(offset), bytes))
  }

  lemma DecodingIsExact(kind: Encoding, offset: nat, bytes: seq<byte>)
    ensures Accepted(kind, offset, bytes) <==> WellEncoded(kind, bytes)
    ensures Accepted(kind, offset, bytes) ==>
              && EncodeText(kind, Characters(OutOf(kind, offset, bytes))) == bytes
              && TiledOver(OutOf(kind, offset, bytes), offset, offset + |bytes|)
  {
    hide Fed, Fed16, EncodeAll, EncodeAll16, Encode, Encode16, Accepts, Accepts16;
    assert Concat([bytes]) == bytes by { ConcatPush([], bytes); assert [] + [bytes] == [bytes] && [] + bytes == bytes; }
    match kind
    case Utf8Text =>
      assert WellEncoded(kind, bytes) <==> WellFormed(bytes) by {
        if cs: seq<Scalar> :| EncodeAll(cs) == bytes { assert EncodeText(kind, cs) == bytes; }
      }
      FedAllIsFed(Start(offset), [bytes]);
      DecoderIsExact(offset, [bytes]);
    case Utf16Text(bigEndian) =>
      assert WellEncoded(kind, bytes) <==> WellFormed16(bigEndian, bytes) by {
        if cs: seq<Scalar> :| EncodeAll16(bigEndian, cs) == bytes { assert EncodeText(kind, cs) == bytes; }
      }
      FedAllIsFed16(bigEndian, Start16(offset), [bytes]);
      Decoder16IsExact(bigEndian, offset, [bytes]);
  }

  lemma {:induction false} OutGrows8(s: State, bytes: seq<byte>)
    ensures s.out <= Fed(s, bytes).out && (s.failed ==> Fed(s, bytes).failed)
    decreases |bytes|
  {
    if bytes != [] {
      assert s.out <= Step(s, bytes[0]).out && (s.failed ==> Step(s, bytes[0]).failed);
      hide Step;
      OutGrows8(Step(s, bytes[0]), bytes[1..]);
    }
  }

  lemma {:induction false} OutGrows16(bigEndian: bool, s: State16, bytes: seq<byte>)
    ensures s.out <= Fed16(bigEndian, s, bytes).out && (s.failed ==> Fed16(bigEndian, s, bytes).failed)
    decreases |bytes|
  {
    if bytes != [] {
      assert s.out <= Step16(bigEndian, s, bytes[0]).out && (s.failed ==> Step16(bigEndian, s, bytes[0]).failed);
      hide Step16;
      OutGrows16(bigEndian, Step16(bigEndian, s, bytes[0]), bytes[1..]);
    }
  }

  /** What has been decoded stays, and a failure too. */
  lemma DecodingGrows(kind: Encoding, offset: nat, a: seq<byte>, b: seq<byte>)
    ensures OutOf(kind, offset, a) <= OutOf(kind, offset, a + b)
    ensures Fails(kind, offset, a) ==> Fails(kind, offset, a + b)
    ensures Fails(kind, offset, a) ==> !Accepted(kind, offset, a)
  {
    hide Fed, Fed16;
    match kind
    case Utf8Text =>
      FedSplits(Start(offset), a, b);
      OutGrows8(Fed(Start(offset), a), b);
    case Utf16Text(bigEndian) =>
      FedSplits16(bigEndian, Start16(offset), a, b);
      OutGrows16(bigEndian, Fed16(bigEndian, Start16(offset), a), b);
  }

  // ---------------------------------------------------------------- the decoder in place

  class Decoder {
    const kind: Encoding
    const utf8: Utf8Decoder
    const utf16: Utf16Decoder
    /** Where the bytes begin in the file, and what has been fed. */
    ghost const origin: nat
    ghost var fed: seq<byte>

    ghost function Repr(): set<object> {
      {this, utf8, utf16}
    }

    ghost predicate Valid()
      reads this, utf8, utf16
    {
      match kind
      case Utf8Text =>
        var s := Fed(Start(origin), fed);
        !s.failed && utf8.held == s.pending && s.next == origin + |fed| && utf8.ReadyAt(origin + |fed|)
      case Utf16Text(bigEndian) =>
        && utf16.bigEndian == bigEndian
        && Fed16(bigEndian, Start16(origin), fed) == utf16.Model(origin + |fed|, OutOf(kind, origin, fed))
        && utf16.ReadyAt(origin + |fed|)
    }

    constructor (kind: Encoding, ghost origin: nat)
      ensures Valid() && this.kind == kind && this.origin == origin && fed == [] && fresh(Repr())
    {
      this.kind, this.origin := kind, origin;
      utf8 := new Utf8Decoder();
      utf16 := new Utf16Decoder(kind == Utf16Text(true));
      fed := [];
    }

    /** Feeds a read that begins at `offset` and returns the characters it completes. */
    method Feed(bytes: seq<byte>, offset: nat) returns (out: seq<DecodedChar<Scalar>>, ok: bool)
      requires Valid() && offset == origin + |fed|
      modifies this, utf8, utf16
      ensures fed == old(fed) + bytes && OutOf(kind, origin, fed) == OutOf(kind, origin, old(fed)) + out
      ensures ok <==> !Fails(kind, origin, fed)
      ensures ok ==> Valid()
    {
      hide Fed, Fed16, Step, Step16;
      match kind {
        case Utf8Text =>
          ghost var s := Fed(Start(origin), fed);
          FedSplits(Start(origin), fed, bytes);
          FedAppends8(s, bytes);
          NextIs8(origin, fed + bytes);
          out, ok := utf8.Feed(bytes, offset);
        case Utf16Text(bigEndian) =>
          ghost var s := Fed16(bigEndian, Start16(origin), fed);
          FedSplits16(bigEndian, Start16(origin), fed, bytes);
          FedAppends16(bigEndian, s, bytes);
          out, ok := utf16.Feed(bytes, offset);
      }
      fed := fed + bytes;
    }

    method Finish() returns (ok: bool)
      requires Valid()
      ensures ok <==> Accepted(kind, origin, fed)
    {
      hide Fed, Fed16;
      match kind {
        case Utf8Text => ok := utf8.Finish(origin + |fed|);
        case Utf16Text(_) => ok := utf16.Finish(origin + |fed|);
      }
    }
  }

  lemma NextIs8(offset: nat, bytes: seq<byte>)
    ensures !Fed(Start(offset), bytes).failed ==> Fed(Start(offset), bytes).next == offset + |bytes|
  {
    StartIsSound(offset);
    hide Fed;
    DecodedSoFar(offset, [], Start(offset), bytes);
    assert [] + bytes == bytes;
  }

  /** What has been decoded before does not influence what follows. */
  lemma {:induction false} FedAppends8(s: State, bytes: seq<byte>)
    ensures var alone := Fed(s.(out := []), bytes); Fed(s, bytes) == alone.(out := s.out + alone.out)
    decreases |bytes|
  {
    if bytes == [] {
      assert s.out + [] == s.out;
    } else {
      var first, rest := bytes[0], bytes[1..];
      StepAppends(s.(out := []), s.out, first);
      hide Step;
      var alone, both := Step(s.(out := []), first), Step(s, first);
      FedAppends8(both, rest);
      FedAppends8(alone, rest);
      assert both.(out := []) == alone.(out := []);
      Associates(s.out, alone.out, Fed(alone.(out := []), rest).out);
    }
  }

  lemma {:induction false} FedAppends16(bigEndian: bool, s: State16, bytes: seq<byte>)
    ensures var alone := Fed16(bigEndian, s.(out := []), bytes); Fed16(bigEndian, s, bytes) == alone.(out := s.out + alone.out)
    decreases |bytes|
  {
    if bytes == [] {
      assert s.out + [] == s.out;
    } else {
      var first, rest := bytes[0], bytes[1..];
      StepAppends16(bigEndian, s.(out := []), s.out, first);
      hide Step16;
      var alone, both := Step16(bigEndian, s.(out := []), first), Step16(bigEndian, s, first);
      FedAppends16(bigEndian, both, rest);
      FedAppends16(bigEndian, alone, rest);
      assert both.(out := []) == alone.(out := []);
      Associates(s.out, alone.out, Fed16(bigEndian, alone.(out := []), rest).out);
    }
  }

  // ---------------------------------------------------------------- a whole file

  function AsChar(d: DecodedChar<Scalar>): DecodedChar<char> {
    DecodedChar(d.character as char, d.start, d.end)
  }

  function AsChars(ds: seq<DecodedChar<Scalar>>): seq<DecodedChar<char>> {
    seq(|ds|, i requires 0 <= i < |ds| => AsChar(ds[i]))
  }

  function Scalars(text: seq<char>): seq<Scalar> {
    seq(|text|, i requires 0 <= i < |text| => text[i] as int)
  }

  lemma LenIsEncoding(c: char)
    ensures Len(c) == |Encode(c as int)|
  {}

  /** The size by which chunks are bounded is that of their text in UTF-8, also for files in UTF-16. */
  lemma {:induction false} SizeIsBytes(text: seq<char>)
    ensures Size(text) == |EncodeAll(Scalars(text))|
  {
    if text != [] {
      var front, c := text[..|text| - 1], text[|text| - 1];
      SizeIsBytes(front);
      assert Scalars(text) == Scalars(front) + [c as int];
      EncodeAllPush(Scalars(front), c as int);
      LenIsEncoding(c);
      hide Encode, Len;
    }
  }

  /** The text of a well-encoded file. */
  function TextOf(kind: Encoding, offset: nat, bytes: seq<byte>): seq<char> {
    Characters(AsChars(OutOf(kind, offset, bytes)))
  }

  lemma AsCharsPush(ds: seq<DecodedChar<Scalar>>, d: DecodedChar<Scalar>)
    ensures AsChars(ds + [d]) == AsChars(ds) + [AsChar(d)]
  {}

  lemma AsCharsIs(ds: seq<DecodedChar<Scalar>>)
    ensures Scalars(Characters(AsChars(ds))) == Characters(ds)
  {}

  lemma TiledChars(ds: seq<DecodedChar<Scalar>>, from: nat, to: nat)
    requires TiledOver(ds, from, to)
    ensures TiledOver(AsChars(ds), from, to)
  {
    var chars := AsChars(ds);
    assert |chars| == |ds| && forall i :: 0 <= i < |ds| ==> chars[i].start == ds[i].start && chars[i].end == ds[i].end;
    hide AsChars;
    assert Tiled(chars);
  }

  /** A text that has been refused is not part of a readable one. */
  lemma RefusedStays(control: char -> bool, ds: seq<DecodedChar<char>>, all: seq<DecodedChar<char>>)
    requires ds <= all && ds != [] && GivenAway(control, Characters(ds))
    ensures !Readable(control, Characters(all))
  {
    hide GivenAway;
    assert Characters(all)[..|ds|] == Characters(ds);
  }

  lemma PrefixIsReadable(control: char -> bool, ds: seq<DecodedChar<char>>, d: DecodedChar<char>)
    requires Readable(control, Characters(ds)) && !GivenAway(control, Characters(ds + [d]))
    ensures Readable(control, Characters(ds + [d]))
  {
    hide GivenAway;
    var text, front := Characters(ds + [d]), Characters(ds);
    assert text[..|text|] == text;
    forall k | 0 < k <= |ds| ensures text[..k] == front[..k] {}
  }

  /** The last of these characters shows that the file is binary. */
  predicate Refuses(control: char -> bool, ds: seq<DecodedChar<Scalar>>) {
    ds != [] && GivenAway(control, Characters(AsChars(ds)))
  }

  lemma RefusedAt(control: char -> bool, ds: seq<DecodedChar<Scalar>>, d: DecodedChar<Scalar>)
    requires GivenAway(control, Characters(AsChars(ds) + [AsChar(d)]))
    ensures Refuses(control, ds + [d])
  {
    hide GivenAway;
    AsCharsPush(ds, d);
  }

  /** Hands the characters of one read to the chunker, until it refuses one. */
  method PushAll(chunker: Chunker, more: seq<DecodedChar<Scalar>>, ghost before: seq<DecodedChar<Scalar>>) returns (ok: bool)
    requires chunker.Ready() && chunker.decoded == AsChars(before) && Readable(chunker.control, Characters(AsChars(before)))
    modifies chunker, chunker.footprint
    ensures ok ==> chunker.Ready() && chunker.decoded == AsChars(before + more) && fresh(chunker.footprint - old(chunker.footprint))
    ensures ok ==> Readable(chunker.control, Characters(AsChars(before + more)))
    ensures !ok ==> exists k :: 0 < k <= |more| && Refuses(chunker.control, before + more[..k])
  {
    hide GivenAway, Readable, Chunker.Valid, Characters, AsChars, AsChar, Refuses, EndsChunk, Waiting;
    assert before + more[..0] == before;
    for i := 0 to |more|
      invariant chunker.Ready() && chunker.decoded == AsChars(before + more[..i]) && fresh(chunker.footprint - old(chunker.footprint))
      invariant Readable(chunker.control, Characters(AsChars(before + more[..i])))
    {
      assert before + more[..i + 1] == before + more[..i] + [more[i]];
      AsCharsPush(before + more[..i], more[i]);
      ok := chunker.Push(AsChar(more[i]));
      if !ok {
        RefusedAt(chunker.control, before + more[..i], more[i]);
        return;
      }
      PrefixIsReadable(chunker.control, AsChars(before + more[..i]), AsChar(more[i]));
    }
    assert before + more[..|more|] == before + more;
    ok := true;
  }

  /** However the file goes on, it is not the encoding of a readable text. */
  ghost predicate Hopeless(control: char -> bool, kind: Encoding, offset: nat, bytes: seq<byte>) {
    forall rest: seq<byte> :: !IsText(control, kind, offset, bytes + rest)
  }

  ghost predicate IsText(control: char -> bool, kind: Encoding, offset: nat, bytes: seq<byte>) {
    Accepted(kind, offset, bytes) && Readable(control, TextOf(kind, offset, bytes))
  }

  lemma FailureIsHopeless(control: char -> bool, kind: Encoding, offset: nat, bytes: seq<byte>)
    requires Fails(kind, offset, bytes)
    ensures Hopeless(control, kind, offset, bytes)
  {
    hide Readable, Fails, Accepted, OutOf;
    forall rest: seq<byte> ensures !IsText(control, kind, offset, bytes + rest) {
      DecodingGrows(kind, offset, bytes, rest);
      DecodingGrows(kind, offset, bytes + rest, []);
    }
  }

  lemma RefusalIsHopeless(control: char -> bool, kind: Encoding, offset: nat, bytes: seq<byte>, ds: seq<DecodedChar<Scalar>>)
    requires ds <= OutOf(kind, offset, bytes) && Refuses(control, ds)
    ensures Hopeless(control, kind, offset, bytes)
  {
    hide Readable, Fails, Accepted, OutOf, GivenAway, Characters;
    forall rest: seq<byte> ensures !IsText(control, kind, offset, bytes + rest) {
      DecodingGrows(kind, offset, bytes, rest);
      var all := OutOf(kind, offset, bytes + rest);
      assert ds <= all && AsChars(ds) <= AsChars(all);
      RefusedStays(control, AsChars(ds), AsChars(all));
    }
  }

  lemma HopelessStays(control: char -> bool, kind: Encoding, offset: nat, bytes: seq<byte>, rest: seq<byte>)
    requires Hopeless(control, kind, offset, bytes)
    ensures !IsText(control, kind, offset, bytes + rest)
  {}

  /** Decoder and chunker in step: all that has been decoded has been handed over. */
  ghost predicate InStep(decoder: Decoder, chunker: Chunker)
    reads decoder, decoder.utf8, decoder.utf16, chunker, chunker.footprint
  {
    && decoder.Valid() && chunker.Ready()
    && decoder.Repr() !! {chunker as object} + chunker.footprint
    && chunker.decoded == AsChars(OutOf(decoder.kind, decoder.origin, decoder.fed))
    && Readable(chunker.control, TextOf(decoder.kind, decoder.origin, decoder.fed))
  }

  /** One read, through the decoder to the chunker. */
  method Process(decoder: Decoder, chunker: Chunker, bytes: seq<byte>, offset: nat) returns (ok: bool)
    requires InStep(decoder, chunker) && offset == decoder.origin + |decoder.fed|
    modifies decoder, decoder.utf8, decoder.utf16, chunker, chunker.footprint
    ensures decoder.fed == old(decoder.fed) + bytes
    ensures ok ==> InStep(decoder, chunker) && fresh(chunker.footprint - old(chunker.footprint))
    ensures !ok ==> Hopeless(chunker.control, decoder.kind, decoder.origin, decoder.fed)
  {
    hide Chunker.Valid, Decoder.Valid, Readable, Refuses, OutOf, Fails, Characters, Hopeless, EndsChunk, Waiting;
    ghost var before := OutOf(decoder.kind, decoder.origin, decoder.fed);
    var more, decoded := decoder.Feed(bytes, offset);
    ok := PushAll(chunker, more, before);
    ghost var all := OutOf(decoder.kind, decoder.origin, decoder.fed);
    if !ok {
      ghost var k :| 0 < k <= |more| && Refuses(chunker.control, before + more[..k]);
      assert before + more[..k] <= all;
      RefusalIsHopeless(chunker.control, decoder.kind, decoder.origin, decoder.fed, before + more[..k]);
      return;
    }
    ok := decoded;
    if !ok {
      FailureIsHopeless(chunker.control, decoder.kind, decoder.origin, decoder.fed);
    }
  }

  lemma OnePartMore(parts: seq<seq<byte>>, i: nat)
    requires i < |parts|
    ensures Concat(parts[..i]) + parts[i] == Concat(parts[..i + 1])
    ensures Concat(parts[..i + 1]) + Concat(parts[i + 1..]) == Concat(parts)
  {
    hide Concat;
    ConcatPush(parts[..i], parts[i]);
    assert parts[..i + 1] == parts[..i] + [parts[i]];
    ConcatAppend(parts[..i + 1], parts[i + 1..]);
    assert parts == parts[..i + 1] + parts[i + 1..];
  }

  lemma NoParts(parts: seq<seq<byte>>)
    ensures Concat(parts[..0]) == []
  {}

  /** All reads, the first of which begins at `mark`, until one shows that the file is no readable text. */
  method ProcessAll(decoder: Decoder, chunker: Chunker, parts: seq<seq<byte>>, mark: nat) returns (ok: bool)
    requires InStep(decoder, chunker) && decoder.fed == [] && decoder.origin == mark
    modifies decoder, decoder.utf8, decoder.utf16, chunker, chunker.footprint
    ensures ok ==> InStep(decoder, chunker) && decoder.fed == Concat(parts) && fresh(chunker.footprint - old(chunker.footprint))
    ensures !ok ==> !IsText(chunker.control, decoder.kind, mark, Concat(parts))
  {
    hide InStep, Hopeless, IsText, Concat;
    NoParts(parts);
    var offset := mark;
    for i := 0 to |parts|
      invariant InStep(decoder, chunker) && decoder.fed == Concat(parts[..i]) && offset == mark + |decoder.fed|
      invariant fresh(chunker.footprint - old(chunker.footprint))
    {
      OnePartMore(parts, i);
      ok := Process(decoder, chunker, parts[i], offset);
      if !ok {
        HopelessStays(chunker.control, decoder.kind, mark, decoder.fed, Concat(parts[i + 1..]));
        return;
      }
      offset := offset + |parts[i]|;
    }
    assert parts[..|parts|] == parts;
    ok := true;
  }

  /** What the chunks of a file are: its whole text in order, with the bytes and lines each came from,
      and its terms, unless the file ends where a chunk does, inside an occurrence with more to give.
      Encoded again they are the file, and their byte ranges abut from behind the mark to its end. */
  ghost predicate FileCut(u: Unicode, kind: Encoding, mark: nat, body: seq<byte>, chunks: seq<Chunk<Span>>) {
    var ds, text := AsChars(OutOf(kind, mark, body)), TextOf(kind, mark, body);
    && Proper(chunks) && FewLines(chunks) && AllEnded(chunks) && Placed(u, chunks)
    && Located(ds, chunks) && Texts(chunks) == text
    && (Terms(chunks) != Tokens(u, text) <==> LosesTerms(u, text))
    && EncodeText(kind, Scalars(Texts(chunks))) == body
    && Abut(chunks, mark, mark + |body|)
  }

  ghost predicate Abut(chunks: seq<Chunk<Span>>, from: nat, to: nat) {
    if chunks == [] then from == to
    else
      && chunks[0].head.startByte == from && chunks[|chunks| - 1].head.endByte == to
      && forall i, j :: 0 <= i && j == i + 1 < |chunks| ==> chunks[i].head.endByte == chunks[j].head.startByte
  }

  lemma ChunksAbut(ds: seq<DecodedChar<char>>, chunks: seq<Chunk<Span>>, from: nat, to: nat)
    requires TiledOver(ds, from, to) && Located(ds, chunks) && Texts(chunks) == Characters(ds)
    ensures Abut(chunks, from, to)
  {
    hide Located, Texts, Tiled;
    if chunks == [] {
      assert Characters(ds) == [] by { NoTexts(chunks); }
      assert |Characters(ds)| == |ds|;
    } else {
      ByteRangesAbut(ds, chunks);
    }
  }

  lemma NoTexts(chunks: seq<Chunk<Span>>)
    requires chunks == []
    ensures Texts(chunks) == []
  {}

  lemma ReadyIsSane(chunker: Chunker)
    requires chunker.Ready()
    ensures SaneText(chunker.u)
  {}

  /** Ends a file all of whose bytes have gone through the decoder. */
  method EndFile(decoder: Decoder, chunker: Chunker) returns (ok: bool)
    requires InStep(decoder, chunker)
    modifies chunker, chunker.footprint
    ensures ok <==> IsText(chunker.control, decoder.kind, decoder.origin, decoder.fed)
    ensures ok ==> FileCut(chunker.u, decoder.kind, decoder.origin, decoder.fed, chunker.output)
  {
    hide Chunker.Valid, Decoder.Valid, Readable, OutOf, Accepted, EndsChunk, Waiting, EncodeText, SoFar, Tokens, Located, Proper,
         FewLines, AllEnded, EndedFor, Placed, Texts, Terms, Characters, AsChars, Scalars, TiledOver, Abut, HasMore, WellEncoded;
    ghost var kind, mark, body := decoder.kind, decoder.origin, decoder.fed;
    ReadyIsSane(chunker);
    ok := decoder.Finish();
    if !ok {
      return;
    }
    chunker.Finish();
    ghost var ds := OutOf(kind, mark, body);
    DecodingIsExact(kind, mark, body);
    AsCharsIs(ds);
    TiledChars(ds, mark, mark + |body|);
    ChunksAbut(AsChars(ds), chunker.output, mark, mark + |body|);
    MoreToComeExactlyWhen(chunker.u, TextOf(kind, mark, body));
  }

  /** A file from its first byte to its last, whatever the sizes of its reads; `prefix` is what is read
      to detect the encoding. It is taken exactly when it is well-formed in the encoding it announces
      and readable, and then cut into chunks. */
  method ReadSource(u: Unicode, control: char -> bool, prefix: seq<byte>, pieces: seq<seq<byte>>)
    returns (ok: bool, chunks: seq<Chunk<Span>>)
    requires SaneText(u) && (|prefix| == 3 || (|prefix| < 3 && Concat(pieces) == []))
    ensures
      var file := prefix + Concat(pieces);
      var (kind, mark) := Detect(file);
      && mark <= |file|
      && (ok <==> WellEncoded(kind, file[mark..]) && Readable(control, TextOf(kind, mark, file[mark..])))
      && (ok ==> FileCut(u, kind, mark, file[mark..], chunks))
  {
    hide Chunker.Valid, Decoder.Valid, Readable, OutOf, FileCut, Accepted, WellEncoded, EndsChunk, Waiting, SaneText, Concat, Detect;
    var (kind, mark) := Detect(prefix);
    DetectIsShort(prefix, Concat(pieces));
    var decoder := new Decoder(kind, mark);
    var chunker := new Chunker(u, control);
    NothingDecoded(kind, mark, control);
    var parts := (if |prefix| > mark then [prefix[mark..]] else []) + pieces;
    ReadsAre(prefix, mark, pieces);
    ghost var body := (prefix + Concat(pieces))[mark..];
    DecodingIsExact(kind, mark, body);
    chunks := [];
    ok := ProcessAll(decoder, chunker, parts, mark);
    if !ok {
      return;
    }
    ok := EndFile(decoder, chunker);
    chunks := chunker.output;
  }

  lemma ReadsAre(prefix: seq<byte>, mark: nat, pieces: seq<seq<byte>>)
    requires mark <= |prefix|
    ensures Concat((if |prefix| > mark then [prefix[mark..]] else []) + pieces) == (prefix + Concat(pieces))[mark..]
  {
    var first := if |prefix| > mark then [prefix[mark..]] else [];
    ConcatAppend(first, pieces);
    assert Concat(first) == prefix[mark..] by {
      if |prefix| > mark {
        assert first[..0] == [] && [] + prefix[mark..] == prefix[mark..];
      }
    }
    hide Concat;
    assert (prefix + Concat(pieces))[mark..] == prefix[mark..] + Concat(pieces);
  }

  lemma NothingDecoded(kind: Encoding, mark: nat, control: char -> bool)
    ensures OutOf(kind, mark, []) == [] && AsChars([]) == [] && Readable(control, TextOf(kind, mark, []))
  {
    assert Characters<char>([]) == [];
  }
}
