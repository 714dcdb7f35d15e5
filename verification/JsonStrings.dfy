/** Strings of section 7 of RFC 8259: what their body spells, and what the scanner that only
    skips a string takes for one. Both start behind the opening quotation mark. */
module JsonStrings {
  import opened Options
  import opened Bytes
  import opened Surrogates
  import opened Utf8

  const QUOTE: byte := 0x22
  const BACKSLASH: byte := 0x5C
  const LETTER_U: byte := 0x75

  // ---------------------------------------------------------------- escapes

  /** What a two-byte escape stands for. */
  function ShortEscape(letter: byte): Option<Scalar> {
    if letter == QUOTE || letter == BACKSLASH || letter == 0x2F then Some(letter)
    else if letter == 0x62 then Some(8)
    else if letter == 0x66 then Some(12)
    else if letter == 0x6E then Some(10)
    else if letter == 0x72 then Some(13)
    else if letter == 0x74 then Some(9)
    else None
  }

  function HexDigit(b: byte): Option<nat> {
    if 0x30 <= b <= 0x39 then Some(b - 0x30)
    else if 0x41 <= b <= 0x46 then Some(b - 0x41 + 10)
    else if 0x61 <= b <= 0x66 then Some(b - 0x61 + 10)
    else None
  }

  predicate IsQuad(s: seq<byte>) {
    |s| == 4 && HexDigit(s[0]).Some? && HexDigit(s[1]).Some? && HexDigit(s[2]).Some? && HexDigit(s[3]).Some?
  }

  function Quad(s: seq<byte>): (n: nat)
    requires IsQuad(s)
    ensures n < 0x10000
  {
    ((HexDigit(s[0]).value * 16 + HexDigit(s[1]).value) * 16 + HexDigit(s[2]).value) * 16 + HexDigit(s[3]).value
  }

  predicate IsHex(s: seq<byte>) {
    forall k :: 0 <= k < |s| ==> HexDigit(s[k]).Some?
  }

  /** Digits read one after the other. */
  function Hex(s: seq<byte>): nat
    requires IsHex(s)
  {
    if s == [] then 0 else Hex(s[..|s| - 1]) * 16 + HexDigit(s[|s| - 1]).value
  }

  lemma HexOfNone(s: seq<byte>)
    requires s == []
    ensures IsHex(s) && Hex(s) == 0
  {}

  lemma HexPush(s: seq<byte>, b: byte)
    requires IsHex(s) && HexDigit(b).Some?
    ensures IsHex(s + [b]) && Hex(s + [b]) == Hex(s) * 16 + HexDigit(b).value
  {
    hide HexDigit;
    assert (s + [b])[..|s|] == s;
  }

  /** Four digits are needed, and each must be one. */
  lemma QuadNeeds(s: seq<byte>, i: nat)
    requires i < 4
    ensures |s| >= 4 && IsQuad(s[..4]) ==> HexDigit(s[i]).Some?
  {
    hide HexDigit;
    if |s| >= 4 {
      assert s[..4][0] == s[0] && s[..4][1] == s[1] && s[..4][2] == s[2] && s[..4][3] == s[3];
    }
  }

  lemma HexIsQuad(s: seq<byte>)
    requires |s| == 4
    ensures IsHex(s) <==> IsQuad(s)
    ensures IsHex(s) ==> Hex(s) == Quad(s)
  {
    hide HexDigit;
    if IsHex(s) {
      var a, b, c := s[..3], s[..2], s[..1];
      assert a[..2] == b && b[..1] == c && c[..0] == [];
      assert Hex(c) == HexDigit(s[0]).value;
      assert Hex(b) == Hex(c) * 16 + HexDigit(s[1]).value;
      assert Hex(a) == Hex(b) * 16 + HexDigit(s[2]).value;
    }
  }

  // ---------------------------------------------------------------- the grammar

  datatype Item = Verbatim(c: Scalar) | Short(letter: byte) | Unicode(quad: seq<byte>) | Pair(high: seq<byte>, low: seq<byte>)

  predicate IsItem(i: Item) {
    match i
    case Verbatim(c) => c >= 0x20 && c != QUOTE && c != BACKSLASH
    case Short(letter) => ShortEscape(letter).Some?
    case Unicode(quad) => IsQuad(quad) && !IsHigh(Quad(quad)) && !IsLow(Quad(quad))
    case Pair(high, low) => IsQuad(high) && IsQuad(low) && IsHigh(Quad(high)) && IsLow(Quad(low))
  }

  function Source(i: Item): seq<byte> {
    match i
    case Verbatim(c) => Encode(c)
    case Short(letter) => [BACKSLASH, letter]
    case Unicode(quad) => [BACKSLASH, LETTER_U] + quad
    case Pair(high, low) => [BACKSLASH, LETTER_U] + high + [BACKSLASH, LETTER_U] + low
  }

  function Meaning(i: Item): Scalar
    requires IsItem(i)
  {
    match i
    case Verbatim(c) => c
    case Short(letter) => ShortEscape(letter).value
    case Unicode(quad) => Quad(quad)
    case Pair(high, low) => Combine(Quad(high), Quad(low))
  }

  ghost predicate AllItems(items: seq<Item>) {
    forall k :: 0 <= k < |items| ==> IsItem(items[k])
  }

  function Body(items: seq<Item>): seq<byte> {
    if items == [] then [] else Source(items[0]) + Body(items[1..])
  }

  /** The text a string stands for, encoded. */
  function Value(items: seq<Item>): seq<byte>
    requires AllItems(items)
  {
    if items == [] then [] else Encode(Meaning(items[0])) + Value(items[1..])
  }

  // ---------------------------------------------------------------- reading from the front

  /** The item at the front of `s`, if there is one. */
  function NextItem(s: seq<byte>): Option<Item> {
    if s == [] then None
    else if s[0] == BACKSLASH then NextEscape(s)
    else if s[0] < 0x20 || s[0] == QUOTE then None
    else if s[0] < 0x80 then Some(Verbatim(s[0]))
    else
      var width := Width(s[0]);
      if width == 0 || |s| < width then None
      else
        var c := FromUtf8(s[..width]);
        if c.Some? then Some(Verbatim(c.value)) else None
  }

  function NextEscape(s: seq<byte>): Option<Item>
    requires s != [] && s[0] == BACKSLASH
  {
    if |s| < 2 then None
    else if s[1] != LETTER_U then if ShortEscape(s[1]).Some? then Some(Short(s[1])) else None
    else if |s| < 6 || !IsQuad(s[2..6]) then None
    else if IsHigh(Quad(s[2..6])) then
      if |s| >= 12 && s[6] == BACKSLASH && s[7] == LETTER_U && IsQuad(s[8..12]) && IsLow(Quad(s[8..12]))
      then Some(Pair(s[2..6], s[8..12])) else None
    else if IsLow(Quad(s[2..6])) then None
    else Some(Unicode(s[2..6]))
  }

  /** Reading finds the item that is there, and there is at most one. */
  lemma NextItemIsExact(s: seq<byte>, i: Item)
    ensures NextItem(s) == Some(i) <==> IsItem(i) && Source(i) <= s
    ensures NextItem(s) == Some(i) ==> Source(i) != [] && s[0] != QUOTE
  {
    match i
    case Verbatim(c) => VerbatimIsExact(s, c);
    case Short(letter) => EscapeIsExact(s, i);
    case Unicode(quad) => EscapeIsExact(s, i);
    case Pair(high, low) => EscapeIsExact(s, i);
  }

  lemma WidthIsZeroOrWide(s: seq<byte>)
    requires s != []
    ensures Width(s[0]) == 0 || (Width(s[0]) >= 2 && s[0] >= 0x80)
  {}

  lemma VerbatimIsExact(s: seq<byte>, c: Scalar)
    ensures NextItem(s) == Some(Verbatim(c)) <==> IsItem(Verbatim(c)) && Encode(c) <= s
    ensures NextItem(s) == Some(Verbatim(c)) ==> s[0] != QUOTE
  {
    EncodingShape(c);
    assert |Encode(c)| >= 2 ==> c >= 0x80;
    hide FromUtf8, Encode, NextEscape, Width;
    var width := if s == [] then 0 else Width(s[0]);
    if s != [] && s[0] >= 0x80 && 2 <= width <= |s| {
      SyntaxIsEncoding(s[..width], c);
    }
    if s != [] {
      WidthIsZeroOrWide(s);
    }
  }

  lemma EscapeIsExact(s: seq<byte>, i: Item)
    requires !i.Verbatim?
    ensures NextItem(s) == Some(i) <==> IsItem(i) && Source(i) <= s
    ensures NextItem(s) == Some(i) ==> s[0] != QUOTE
  {
    match i
    case Short(letter) => ShortIsExact(s, letter);
    case Unicode(quad) => UnicodeIsExact(s, quad);
    case Pair(high, low) => PairIsExact(s, high, low);
  }

  lemma PrefixParts(a: seq<byte>, b: seq<byte>, s: seq<byte>)
    requires |a| + |b| <= |s|
    ensures a + b <= s <==> s[..|a|] == a && s[|a|..|a| + |b|] == b
  {
    if a + b <= s {
      assert (a + b)[..|a|] == a && (a + b)[|a|..] == b && s[..|a| + |b|] == a + b;
    }
    if s[..|a|] == a && s[|a|..|a| + |b|] == b {
      assert s[..|a| + |b|] == s[..|a|] + s[|a|..|a| + |b|];
    }
  }

  lemma ShortIsExact(s: seq<byte>, letter: byte)
    ensures NextItem(s) == Some(Short(letter)) <==> IsItem(Short(letter)) && Source(Short(letter)) <= s
    ensures NextItem(s) == Some(Short(letter)) ==> s[0] != QUOTE
  {
    hide FromUtf8, Encode, HexDigit, Quad;
  }

  lemma UnicodeIsExact(s: seq<byte>, quad: seq<byte>)
    ensures NextItem(s) == Some(Unicode(quad)) <==> IsItem(Unicode(quad)) && Source(Unicode(quad)) <= s
    ensures NextItem(s) == Some(Unicode(quad)) ==> s[0] != QUOTE
  {
    hide FromUtf8, Encode, HexDigit, Quad, ShortEscape;
    if |s| >= 6 && |quad| == 4 {
      PrefixParts([BACKSLASH, LETTER_U], quad, s);
      assert s[..2] == [s[0], s[1]];
    }
  }

  lemma PairIsExact(s: seq<byte>, high: seq<byte>, low: seq<byte>)
    ensures NextItem(s) == Some(Pair(high, low)) <==> IsItem(Pair(high, low)) && Source(Pair(high, low)) <= s
    ensures NextItem(s) == Some(Pair(high, low)) ==> s[0] != QUOTE
  {
    hide FromUtf8, Encode, HexDigit, Quad, ShortEscape;
    if |s| >= 12 && |high| == 4 && |low| == 4 {
      var lead := [BACKSLASH, LETTER_U];
      PrefixParts(lead + high + lead, low, s);
      PrefixParts(lead + high, lead, s[..8]);
      PrefixParts(lead, high, s[..6]);
      assert s[..8][..6] == s[..6] && s[..6][..2] == s[..2] == [s[0], s[1]] && s[..6][2..6] == s[2..6];
      assert s[..8][6..8] == [s[6], s[7]] && s[..8] == s[..8];
    }
  }

  /** The string that ends at the first bare quotation mark. */
  function Parse(s: seq<byte>): Option<seq<Item>>
    decreases |s|
  {
    if s != [] && s[0] == QUOTE then Some([])
    else
      var item := NextItem(s);
      if item.None? then None
      else
        NextItemIsExact(s, item.value);
        var rest := Parse(s[|Source(item.value)|..]);
        if rest.None? then None else Some([item.value] + rest.value)
  }

  /** Parsing is exact: a string is there just when its items and the closing mark are spelled out. */
  lemma {:induction false} ParseIsExact(s: seq<byte>, items: seq<Item>)
    ensures Parse(s) == Some(items) <==> AllItems(items) && Body(items) + [QUOTE] <= s
    decreases |items|
  {
    hide NextItem, Source, IsItem;
    if items == [] {
      assert [] + [QUOTE] <= s <==> s != [] && s[0] == QUOTE;
      if s != [] && s[0] != QUOTE { assert Parse(s) != Some([]); }
    } else {
      var i, more := items[0], items[1..];
      NextItemIsExact(s, i);
      assert items == [i] + more && (AllItems(items) <==> IsItem(i) && AllItems(more));
      var n := |Source(i)|;
      if NextItem(s) == Some(i) {
        ParseIsExact(s[n..], more);
        assert s == Source(i) + s[n..];
        assert Body(items) + [QUOTE] == Source(i) + (Body(more) + [QUOTE]);
      } else {
        assert Parse(s) != Some(items);
        if Body(items) + [QUOTE] <= s { assert Source(i) <= Body(items) + [QUOTE] <= s; }
      }
    }
  }

  // ---------------------------------------------------------------- reading on

  function Join(items: seq<Item>, rest: Option<seq<Item>>): Option<seq<Item>> {
    if rest.Some? then Some(items + rest.value) else None
  }

  /** The items before position `k` have been read. */
  ghost predicate ReadTo(s: seq<byte>, items: seq<Item>, k: nat) {
    && k <= |s| && AllItems(items) && |Body(items)| == k
    && Parse(s) == Join(items, Parse(s[k..]))
  }

  lemma {:induction false} BodyPush(items: seq<Item>, i: Item)
    ensures Body(items + [i]) == Body(items) + Source(i)
    ensures AllItems(items) && IsItem(i) ==>
              AllItems(items + [i]) && Value(items + [i]) == Value(items) + Encode(Meaning(i))
  {
    hide Source, IsItem, Meaning, Encode;
    var all := items + [i];
    if items == [] {
      assert all == [i] && [i][1..] == [];
      assert Body(all) == Source(i) + Body([]);
      assert IsItem(i) ==> AllItems([]) && Value(all) == Encode(Meaning(i)) + Value([]);
    } else {
      assert all[1..] == items[1..] + [i] && all[0] == items[0];
      assert AllItems(items) ==> AllItems(items[1..]);
      BodyPush(items[1..], i);
      var a, b, c := Source(items[0]), Body(items[1..]), Source(i);
      assert a + (b + c) == a + b + c;
      if AllItems(items) && IsItem(i) {
        assert AllItems(all);
        var x, y, z := Encode(Meaning(items[0])), Value(items[1..]), Encode(Meaning(i));
        assert x + (y + z) == x + y + z;
      }
    }
  }

  lemma ReadStart(s: seq<byte>)
    ensures ReadTo(s, [], 0)
  {
    assert s[0..] == s;
    if Parse(s).Some? {
      assert [] + Parse(s).value == Parse(s).value;
    }
  }

  lemma ReadNext(s: seq<byte>, items: seq<Item>, k: nat, i: Item)
    requires ReadTo(s, items, k) && NextItem(s[k..]) == Some(i)
    ensures k + |Source(i)| <= |s| && ReadTo(s, items + [i], k + |Source(i)|)
  {
    var n := |Source(i)|;
    ParseNext(s[k..], i);
    BodyPush(items, i);
    assert s[k..][n..] == s[k + n..];
    JoinJoin(items, i, Parse(s[k + n..]));
    assert |Body(items)| == k;
    hide Parse, NextItem, Body, Source, IsItem, AllItems, Value, Join;
  }

  lemma JoinJoin(items: seq<Item>, i: Item, rest: Option<seq<Item>>)
    ensures Join(items, Join([i], rest)) == Join(items + [i], rest)
  {
    if rest.Some? {
      assert items + ([i] + rest.value) == items + [i] + rest.value;
    }
  }

  lemma ParseNext(t: seq<byte>, i: Item)
    requires NextItem(t) == Some(i)
    ensures IsItem(i) && |Source(i)| <= |t| && Parse(t) == Join([i], Parse(t[|Source(i)|..]))
  {
    NextItemIsExact(t, i);
    hide NextItem, Source, IsItem;
  }

  lemma ReadEnd(s: seq<byte>, items: seq<Item>, k: nat)
    requires ReadTo(s, items, k) && k < |s| && s[k] == QUOTE
    ensures Parse(s) == Some(items)
  {
    assert Parse(s[k..]) == Some([]);
    assert items + [] == items;
  }

  lemma ReadStops(s: seq<byte>, items: seq<Item>, k: nat)
    requires ReadTo(s, items, k) && NextItem(s[k..]) == None && (k < |s| ==> s[k] != QUOTE)
    ensures Parse(s) == None
  {
    hide NextItem;
    assert Parse(s[k..]) == None;
  }

  // ---------------------------------------------------------------- skipping

  /** How much is skipped at once. The digits of a Unicode escape are checked, but neither escape
      letters, nor surrogates, nor encoding. */
  function Stride(s: seq<byte>): (n: Option<nat>)
    requires s != [] && s[0] != QUOTE
    ensures n.Some? ==> 1 <= n.value <= |s|
  {
    if s[0] == BACKSLASH then
      if |s| < 2 then None
      else if s[1] != LETTER_U then Some(2)
      else if |s| < 6 || !IsQuad(s[2..6]) then None
      else Some(6)
    else if s[0] < 0x20 then None
    else Some(1)
  }

  /** How many bytes the skipping scanner takes for the string, if it finds an end. */
  function Skip(s: seq<byte>): Option<nat>
    decreases |s|
  {
    if s == [] then None
    else if s[0] == QUOTE then Some(1)
    else
      var n := Stride(s);
      if n.None? then None else Plus(n.value, Skip(s[n.value..]))
  }

  lemma SkipStep(s: seq<byte>)
    ensures s == [] ==> Skip(s) == None
    ensures s != [] && s[0] == QUOTE ==> Skip(s) == Some(1)
    ensures s != [] && s[0] != QUOTE ==>
              Skip(s) == if Stride(s).None? then None else Plus(Stride(s).value, Skip(s[Stride(s).value..]))
  {}

  function Plus(n: nat, rest: Option<nat>): Option<nat> {
    if rest.Some? then Some(n + rest.value) else None
  }

  lemma SkipsTail(s: seq<byte>)
    requires s != [] && s[0] >= 0x80
    ensures Skip(s) == Plus(1, Skip(s[1..]))
  {}

  /** Bytes beyond the seven-bit range are skipped one by one. */
  lemma {:induction false} SkipsBytes(s: seq<byte>, n: nat)
    requires n <= |s| && forall i :: 0 <= i < n ==> s[i] >= 0x80
    ensures Skip(s) == Plus(n, Skip(s[n..]))
  {
    if n == 0 {
      assert s[0..] == s;
    } else {
      SkipsTail(s);
      hide Skip;
      SkipsBytes(s[1..], n - 1);
      assert s[1..][n - 1..] == s[n..];
    }
  }

  lemma SkipsItem(s: seq<byte>, i: Item)
    requires NextItem(s) == Some(i)
    ensures Source(i) <= s && Skip(s) == Plus(|Source(i)|, Skip(s[|Source(i)|..]))
  {
    NextItemIsExact(s, i);
    if i.Verbatim? {
      EncodingShape(i.c);
      var e := Encode(i.c);
      assert forall k :: 0 <= k < |e| ==> s[k] == e[k];
      hide Encode, FromUtf8, NextEscape;
      if |e| == 1 {
        assert s[0] == i.c;
      } else {
        assert s[0] >= 0x80;
        SkipsBytes(s, |e|);
      }
    } else {
      hide Encode, FromUtf8, Quad, HexDigit, ShortEscape;
      if i.Pair? {
        assert Skip(s) == Plus(6, Skip(s[6..]));
        assert s[6..][2..6] == s[8..12] && s[6..][6..] == s[12..];
      }
    }
  }

  /** Every string that capturing accepts is skipped to the very same byte. */
  lemma {:induction false} SkippingFollowsCapture(s: seq<byte>, items: seq<Item>)
    requires Parse(s) == Some(items)
    ensures Skip(s) == Some(|Body(items)| + 1)
    decreases |s|
  {
    hide NextItem, Source;
    if s != [] && s[0] == QUOTE {
    } else {
      var i := NextItem(s).value;
      NextItemIsExact(s, i);
      SkipsItem(s, i);
      var rest := s[|Source(i)|..];
      assert items == [i] + Parse(rest).value && items[1..] == Parse(rest).value;
      hide Skip;
      SkippingFollowsCapture(rest, items[1..]);
    }
  }

  // ---------------------------------------------------------------- when skipping and capturing agree

  /** The strides of a string that can be skipped, up to its closing mark. */
  function Strides(s: seq<byte>): seq<seq<byte>>
    requires Skip(s).Some?
    decreases |s|
  {
    if s[0] == QUOTE then [] else var n := Stride(s).value; [s[..n]] + Strides(s[n..])
  }

  predicate IsEscape(stride: seq<byte>) {
    |stride| > 1
  }

  predicate IsHighStride(stride: seq<byte>) {
    |stride| == 6 && IsQuad(stride[2..]) && IsHigh(Quad(stride[2..]))
  }

  predicate IsLowStride(stride: seq<byte>) {
    |stride| == 6 && IsQuad(stride[2..]) && IsLow(Quad(stride[2..]))
  }

  /** Two-byte escapes mean something. */
  predicate LettersMean(strides: seq<seq<byte>>) {
    forall i :: 0 <= i < |strides| && |strides[i]| == 2 ==> ShortEscape(strides[i][1]).Some?
  }

  /** A stride is a low surrogate exactly when the one before it is a high one; `high` says whether
      what comes before all of them is. */
  predicate SurrogatesPair(high: bool, strides: seq<seq<byte>>) {
    forall i :: 0 <= i <= |strides| ==> HighBefore(high, strides, i) == LowAt(strides, i)
  }

  predicate LowAt(strides: seq<seq<byte>>, i: nat)
    requires i <= |strides|
  {
    i < |strides| && IsLowStride(strides[i])
  }

  predicate HighBefore(high: bool, strides: seq<seq<byte>>, i: nat)
    requires i <= |strides|
  {
    if i == 0 then high else IsHighStride(strides[i - 1])
  }

  /** The bytes between escapes, before the first and behind the last included. */
  function Stretches(strides: seq<seq<byte>>): (stretches: seq<seq<byte>>)
    ensures stretches != []
  {
    if strides == [] then [[]]
    else
      var rest := Stretches(strides[1..]);
      if IsEscape(strides[0]) then [[]] + rest else [strides[0] + rest[0]] + rest[1..]
  }

  ghost predicate AllEncode(stretches: seq<seq<byte>>) {
    forall i :: 0 <= i < |stretches| ==> WellFormed(stretches[i])
  }

  /** What capturing demands beyond skipping: escapes that mean something, surrogates in pairs of
      high and low, and stretches between escapes that are well-formed. */
  ghost predicate Meaningful(strides: seq<seq<byte>>) {
    LettersMean(strides) && SurrogatesPair(false, strides) && AllEncode(Stretches(strides))
  }

  lemma FirstStride(s: seq<byte>)
    requires Skip(s).Some?
    ensures s != [] && (s[0] == QUOTE ==> Skip(s) == Some(1) && Strides(s) == [])
    ensures s[0] != QUOTE ==>
      && Stride(s).Some? && Skip(s[Stride(s).value..]).Some?
      && Skip(s).value == Stride(s).value + Skip(s[Stride(s).value..]).value
      && Strides(s) == [s[..Stride(s).value]] + Strides(s[Stride(s).value..])
  {
    hide Stride;
  }

  /** The strides are the string that is skipped. */
  lemma {:induction false} StridesAreBody(s: seq<byte>)
    requires Skip(s).Some?
    ensures 1 <= Skip(s).value <= |s| && Concat(Strides(s)) == s[..Skip(s).value - 1]
    decreases |s|
  {
    assert Concat<byte>([]) == [];
    hide Skip, Strides, Stride, Concat;
    FirstStride(s);
    if s[0] != QUOTE {
      var n := Stride(s).value;
      StridesAreBody(s[n..]);
      ConcatAppend([s[..n]], Strides(s[n..]));
      ConcatPush([], s[..n]);
      BodyOfRest(s, n, Skip(s[n..]).value);
    }
  }

  lemma BodyOfRest(s: seq<byte>, n: nat, more: nat)
    requires n <= |s| && 1 <= more <= |s| - n
    ensures Concat<byte>([]) + s[..n] + s[n..][..more - 1] == s[..n + more - 1] && [] + [s[..n]] == [s[..n]]
  {
    assert Concat<byte>([]) == [];
  }

  // ---------------------------------------------------------------- one stride less

  lemma LettersMeanFirst(first: seq<byte>, rest: seq<seq<byte>>)
    ensures LettersMean([first] + rest) <==> (|first| == 2 ==> ShortEscape(first[1]).Some?) && LettersMean(rest)
  {
    hide ShortEscape;
    var all := [first] + rest;
    assert all[0] == first && forall i :: 0 <= i < |rest| ==> all[i + 1] == rest[i];
  }

  lemma SurrogatesPairFirst(high: bool, first: seq<byte>, rest: seq<seq<byte>>)
    ensures SurrogatesPair(high, [first] + rest) <==> high == IsLowStride(first) && SurrogatesPair(IsHighStride(first), rest)
  {
    hide IsHighStride, IsLowStride;
    var all := [first] + rest;
    assert all[0] == first && forall i :: 0 <= i < |rest| ==> all[i + 1] == rest[i];
    assert HighBefore(high, all, 0) == high && LowAt(all, 0) == IsLowStride(first);
    forall i | 0 <= i <= |rest|
      ensures HighBefore(IsHighStride(first), rest, i) == HighBefore(high, all, i + 1) && LowAt(rest, i) == LowAt(all, i + 1)
    {}
    hide HighBefore, LowAt;
    if SurrogatesPair(IsHighStride(first), rest) && high == IsLowStride(first) {
      forall j | 0 <= j <= |all| ensures HighBefore(high, all, j) == LowAt(all, j) {
        if j > 0 {
          var i := j - 1;
          assert HighBefore(IsHighStride(first), rest, i) == LowAt(rest, i);
        }
      }
    }
  }

  lemma NoStridesPair(high: bool)
    ensures SurrogatesPair(high, []) <==> !high
  {
    assert HighBefore(high, [], 0) == high && !LowAt([], 0);
  }

  lemma AllEncodeFirst(first: seq<byte>, rest: seq<seq<byte>>)
    ensures AllEncode([first] + rest) <==> WellFormed(first) && AllEncode(rest)
  {
    hide WellFormed;
    var all := [first] + rest;
    assert all[0] == first && forall i :: 0 <= i < |rest| ==> all[i + 1] == rest[i];
  }

  lemma NothingIsWellFormed()
    ensures WellFormed([])
  {
    assert EncodeAll([]) == [];
  }

  /** An escape that is no surrogate, at the front. */
  lemma EscapeFirst(first: seq<byte>, rest: seq<seq<byte>>)
    requires IsEscape(first)
    ensures AllEncode(Stretches([first] + rest)) <==> AllEncode(Stretches(rest))
  {
    assert ([first] + rest)[1..] == rest;
    NothingIsWellFormed();
    hide WellFormed;
    AllEncodeFirst([], Stretches(rest));
  }

  // ---------------------------------------------------------------- one character less

  predicate IsPlain(b: byte) {
    b >= 0x20 && b != QUOTE && b != BACKSLASH
  }

  lemma PlainStride(s: seq<byte>)
    requires Skip(s).Some? && IsPlain(s[0])
    ensures Skip(s[1..]).Some? && Strides(s) == [s[..1]] + Strides(s[1..])
  {}

  /** Bytes at the front that no escape interrupts. */
  ghost predicate PlainTo(s: seq<byte>, n: nat)
    requires Skip(s).Some? && n <= |s|
  {
    && Skip(s[n..]).Some?
    && var strides, rest := Strides(s), Strides(s[n..]);
      && Stretches(strides) == [s[..n] + Stretches(rest)[0]] + Stretches(rest)[1..]
      && (LettersMean(strides) <==> LettersMean(rest))
      && (SurrogatesPair(false, strides) <==> SurrogatesPair(false, rest))
  }

  lemma PlainOne(s: seq<byte>)
    requires Skip(s).Some? && IsPlain(s[0])
    ensures PlainTo(s, 1)
  {
    PlainStride(s);
    hide Skip, Strides, LettersMean, SurrogatesPair, ShortEscape;
    var first, rest := s[..1], Strides(s[1..]);
    assert ([first] + rest)[1..] == rest;
    LettersMeanFirst(first, rest);
    SurrogatesPairFirst(false, first, rest);
  }

  lemma {:induction false} PlainFirst(s: seq<byte>, n: nat)
    requires Skip(s).Some? && n <= |s| && forall i :: 0 <= i < n ==> IsPlain(s[i])
    ensures PlainTo(s, n)
    decreases n
  {
    hide Skip, Strides, LettersMean, SurrogatesPair, Stretches, IsPlain;
    if n == 0 {
      assert s[0..] == s;
      var stretches := Stretches(Strides(s));
      assert s[..0] + stretches[0] == stretches[0];
    } else {
      var t := s[1..];
      PlainOne(s);
      PlainFirst(t, n - 1);
      assert t[n - 1..] == s[n..];
      var stretches := Stretches(Strides(s[n..]));
      assert s[..1] + (t[..n - 1] + stretches[0]) == s[..n] + stretches[0];
    }
  }

  /** The first stretch is at the front. */
  lemma {:induction false} FirstStretch(s: seq<byte>)
    requires Skip(s).Some?
    ensures Stretches(Strides(s))[0] <= s
    ensures s[0] != QUOTE && s[0] != BACKSLASH ==> Stretches(Strides(s))[0] != []
    decreases |s|
  {
    if s[0] != QUOTE && s[0] != BACKSLASH {
      var t := s[1..];
      assert Stride(s) == Some(1) && Strides(s) == [s[..1]] + Strides(t) && ([s[..1]] + Strides(t))[1..] == Strides(t);
      FirstStretch(t);
      assert s == s[..1] + t;
    }
  }

  /** Bytes that begin with a character are well-formed exactly when the rest is. */
  lemma CharacterFirst(c: Scalar, rest: seq<byte>)
    ensures WellFormed(Encode(c) + rest) <==> WellFormed(rest)
  {
    hide Encode, EncodeAll;
    if WellFormed(rest) {
      var cs: seq<Scalar> :| EncodeAll(cs) == rest;
      EncodeAllFirst(c, cs);
    }
    if WellFormed(Encode(c) + rest) {
      var cs := FirstCharacter(Encode(c) + rest);
      SameFirstCharacter(c, cs[0], rest, EncodeAll(cs[1..]));
    }
  }

  lemma FirstCharacter(bytes: seq<byte>) returns (cs: seq<Scalar>)
    requires WellFormed(bytes) && bytes != []
    ensures cs != [] && bytes == Encode(cs[0]) + EncodeAll(cs[1..])
  {
    cs :| EncodeAll(cs) == bytes;
    hide Encode;
    assert cs != [];
    EncodeAllFirst(cs[0], cs[1..]);
    assert [cs[0]] + cs[1..] == cs;
  }

  lemma SameFirstCharacter(c: Scalar, d: Scalar, x: seq<byte>, y: seq<byte>)
    requires Encode(c) + x == Encode(d) + y
    ensures c == d && x == y
  {
    EncodingShape(c);
    EncodingShape(d);
    hide Encode, FromUtf8, Width;
    assert (Encode(c) + x)[0] == Encode(c)[0] && (Encode(d) + y)[0] == Encode(d)[0];
    assert |Encode(c)| == |Encode(d)|;
    assert (Encode(c) + x)[..|Encode(c)|] == Encode(c) && (Encode(d) + y)[..|Encode(c)|] == Encode(d);
    assert (Encode(c) + x)[|Encode(c)|..] == x && (Encode(d) + y)[|Encode(c)|..] == y;
  }

  lemma PlainCharacter(c: Scalar)
    requires IsPlain(Encode(c)[0])
    ensures IsItem(Verbatim(c)) && forall i :: 0 <= i < |Encode(c)| ==> IsPlain(Encode(c)[i])
  {}

  // ---------------------------------------------------------------- the exact condition

  /** Capturing and Meaningful say the same of a string that can be skipped. */
  ghost predicate Agrees(s: seq<byte>) {
    Skip(s).Some? ==> (Parse(s).Some? <==> Meaningful(Strides(s)))
  }

  lemma CharacterAgrees(s: seq<byte>, c: Scalar)
    requires Skip(s).Some? && IsPlain(s[0]) && NextItem(s) == Some(Verbatim(c))
    requires Agrees(s[|Encode(c)|..])
    ensures |Encode(c)| <= |s| && Agrees(s)
  {
    hide Skip, Strides, LettersMean, SurrogatesPair, Stretches, IsPlain, Encode, Parse, NextItem;
    VerbatimIsExact(s, c);
    ParseNext(s, Verbatim(c));
    PlainCharacter(c);
    var n := |Encode(c)|;
    assert forall i :: 0 <= i < n ==> s[i] == Encode(c)[i];
    PlainFirst(s, n);
    var rest := Stretches(Strides(s[n..]));
    assert s[..n] == Encode(c) && rest == [rest[0]] + rest[1..];
    AllEncodeFirst(Encode(c) + rest[0], rest[1..]);
    AllEncodeFirst(rest[0], rest[1..]);
    CharacterFirst(c, rest[0]);
  }

  lemma NoCharacterAgrees(s: seq<byte>)
    requires Skip(s).Some? && IsPlain(s[0]) && NextItem(s).None?
    ensures Agrees(s)
  {
    FirstStretch(s);
    var stretch := Stretches(Strides(s))[0];
    hide Skip, Strides, LettersMean, SurrogatesPair, Stretches, NextItem, Encode;
    if Meaningful(Strides(s)) {
      assert WellFormed(stretch);
      var cs := FirstCharacter(stretch);
      assert Encode(cs[0]) <= stretch <= s;
      EncodingShape(cs[0]);
      assert Encode(cs[0])[0] == s[0];
      PlainCharacter(cs[0]);
      VerbatimIsExact(s, cs[0]);
    }
  }

  lemma EscapeStride(s: seq<byte>)
    requires Skip(s).Some? && s[0] == BACKSLASH
    ensures var n := Stride(s).value;
      && (n == 2 || n == 6) && Skip(s[n..]).Some? && Strides(s) == [s[..n]] + Strides(s[n..])
  {
    hide IsQuad;
  }

  /** What an escape stride adds to the condition. */
  lemma EscapeMeans(s: seq<byte>)
    requires Skip(s).Some? && s[0] == BACKSLASH
    ensures var n := Stride(s).value;
      && Skip(s[n..]).Some?
      && var first, rest := s[..n], Strides(s[n..]);
      Meaningful(Strides(s)) <==>
        && (n == 2 ==> ShortEscape(s[1]).Some?) && !IsLowStride(first)
        && LettersMean(rest) && SurrogatesPair(IsHighStride(first), rest) && AllEncode(Stretches(rest))
  {
    EscapeStride(s);
    var n := Stride(s).value;
    var first, rest := s[..n], Strides(s[n..]);
    hide Skip, Strides, LettersMean, SurrogatesPair, Stretches, Stride, ShortEscape, IsLowStride, IsHighStride, AllEncode;
    LettersMeanFirst(first, rest);
    SurrogatesPairFirst(false, first, rest);
    EscapeFirst(first, rest);
  }

  lemma SingleEscapeAgrees(s: seq<byte>)
    requires Skip(s).Some? && s[0] == BACKSLASH && !IsHighStride(s[..Stride(s).value])
    requires Agrees(s[Stride(s).value..])
    ensures Agrees(s)
  {
    EscapeMeans(s);
    hide Skip, Strides, LettersMean, SurrogatesPair, Stretches, AllEncode;
    var n := Stride(s).value;
    assert n == 6 ==> s[..n][2..] == s[2..6];
    EscapeItem(s);
    if NextItem(s).Some? {
      ParseNext(s, NextItem(s).value);
    }
  }

  lemma EscapeItem(s: seq<byte>)
    requires s != [] && s[0] == BACKSLASH && Stride(s).Some? && !IsHighStride(s[..Stride(s).value])
    ensures var n := Stride(s).value;
      && (NextItem(s).Some? <==> (n == 2 ==> ShortEscape(s[1]).Some?) && !IsLowStride(s[..n]))
      && (NextItem(s).Some? ==> |Source(NextItem(s).value)| == n)
  {
    hide IsQuad, Quad;
    var n := Stride(s).value;
    assert n == 6 ==> s[..n][2..] == s[2..6];
  }

  predicate LowEscapeAt(t: seq<byte>) {
    t != [] && t[0] == BACKSLASH && Stride(t) == Some(6) && IsLowStride(t[..6])
  }

  lemma PairItem(s: seq<byte>)
    requires s != [] && s[0] == BACKSLASH && Stride(s) == Some(6) && IsHighStride(s[..6])
    ensures NextItem(s).Some? <==> LowEscapeAt(s[6..])
    ensures NextItem(s).Some? ==> |Source(NextItem(s).value)| == 12
  {
    hide IsQuad, Quad;
    assert s[..6][2..] == s[2..6];
    var t := s[6..];
    if |t| >= 6 {
      assert t[..6][2..] == t[2..6] == s[8..12] && t[0] == s[6] && t[1] == s[7];
    }
  }

  lemma LowIsNotHigh(stride: seq<byte>)
    ensures !(IsLowStride(stride) && IsHighStride(stride))
  {}

  /** Behind a high surrogate there has to be a low one. */
  lemma LowMeans(t: seq<byte>)
    requires Skip(t).Some?
    ensures LowEscapeAt(t) ==> Skip(t[6..]).Some?
    ensures LettersMean(Strides(t)) && SurrogatesPair(true, Strides(t)) && AllEncode(Stretches(Strides(t))) <==>
            LowEscapeAt(t) && Meaningful(Strides(t[6..]))
  {
    NoStridesPair(true);
    if t[0] == QUOTE {
      hide LettersMean, SurrogatesPair, AllEncode, Stretches;
    } else if t[0] == BACKSLASH {
      EscapeStride(t);
      var n := Stride(t).value;
      var first, rest := t[..n], Strides(t[n..]);
      assert |first| == n;
      assert IsLowStride(first) ==> n == 6;
      hide Skip, Strides, LettersMean, SurrogatesPair, Stretches, Stride, ShortEscape, IsLowStride, IsHighStride, AllEncode;
      LowIsNotHigh(first);
      LettersMeanFirst(first, rest);
      SurrogatesPairFirst(true, first, rest);
      EscapeFirst(first, rest);
    } else {
      PlainStride(t);
      assert !IsLowStride(t[..1]);
      hide Skip, Strides, LettersMean, SurrogatesPair, Stretches, AllEncode;
      SurrogatesPairFirst(true, t[..1], Strides(t[1..]));
    }
  }

  lemma HighEscapeAgrees(s: seq<byte>)
    requires Skip(s).Some? && s[0] == BACKSLASH && IsHighStride(s[..Stride(s).value])
    requires |s| >= 12 ==> Agrees(s[12..])
    ensures Agrees(s)
  {
    EscapeStride(s);
    EscapeMeans(s);
    var t := s[6..];
    hide Skip, Strides, LettersMean, SurrogatesPair, Stretches, AllEncode, Stride, IsLowStride, IsHighStride, NextItem, Source, Parse, Meaningful;
    assert |s[..Stride(s).value]| == 6 by { HighIsLong(s[..Stride(s).value]); }
    LowIsNotHigh(s[..6]);
    LowMeans(t);
    PairItem(s);
    if LowEscapeAt(t) {
      assert t[6..] == s[12..];
      ParseNext(s, NextItem(s).value);
    } else {
      NoItemNoString(s);
    }
  }

  lemma HighIsLong(stride: seq<byte>)
    requires IsHighStride(stride)
    ensures |stride| == 6
  {}

  lemma NoItemNoString(s: seq<byte>)
    requires s != [] && s[0] != QUOTE && NextItem(s).None?
    ensures Parse(s).None?
  {}

  /** A string that can be skipped can be captured exactly when its escape letters are among the
      eight or `u`, its surrogates come in pairs, and the bytes between its escapes are well-formed. */
  lemma {:induction false} SkippedIsCapturedExactlyWhen(s: seq<byte>)
    requires Skip(s).Some?
    ensures Parse(s).Some? <==> Meaningful(Strides(s))
    decreases |s|
  {
    forall n: nat | 0 < n <= |s| ensures Agrees(s[n..]) {
      if Skip(s[n..]).Some? { SkippedIsCapturedExactlyWhen(s[n..]); }
    }
    if s[0] == QUOTE {
      NothingMeans();
      hide Meaningful;
    } else if s[0] == BACKSLASH {
      EscapeStride(s);
      hide Skip, Strides, Meaningful, Parse, IsHighStride, Stride;
      if IsHighStride(s[..Stride(s).value]) {
        HighEscapeAgrees(s);
      } else {
        SingleEscapeAgrees(s);
      }
    } else {
      assert IsPlain(s[0]);
      if NextItem(s).None? {
        NoCharacterAgrees(s);
      } else {
        NextItemIsExact(s, NextItem(s).value);
        var c := NextItem(s).value.c;
        assert 0 < |Encode(c)| <= |s|;
        hide Skip, Strides, Meaningful, Parse, NextItem, Encode;
        CharacterAgrees(s, c);
      }
    }
  }

  lemma NothingMeans()
    ensures Meaningful([])
  {
    NoStridesPair(false);
    NothingIsWellFormed();
  }

  /** So skipping accepts strings that capturing refuses: escapes that mean nothing, lone surrogates,
      and bytes that encode nothing. */
  lemma SkippingAcceptsMore(letter: byte, quad: seq<byte>, tail: byte)
    requires letter != LETTER_U && ShortEscape(letter).None?
    requires IsQuad(quad) && (IsHigh(Quad(quad)) || IsLow(Quad(quad)))
    requires Utf8.IsTail(tail)
    ensures var s := [BACKSLASH, letter, QUOTE]; Skip(s) == Some(|s|) && Parse(s) == None
    ensures var s := [BACKSLASH, LETTER_U] + quad + [QUOTE]; Skip(s) == Some(|s|) && Parse(s) == None
    ensures var s := [tail, QUOTE]; Skip(s) == Some(|s|) && Parse(s) == None
  {
    hide Quad, HexDigit;
    var a, b, c := [BACKSLASH, letter, QUOTE], [BACKSLASH, LETTER_U] + quad + [QUOTE], [tail, QUOTE];
    assert a[2..] == [QUOTE] && b[6..] == [QUOTE] && c[1..] == [QUOTE];
    assert b[2..6] == quad && b[0] == BACKSLASH && b[1] == LETTER_U;
  }
}
