/** Writing strings as section 7 of RFC 8259 allows: every character as it is, by a letter, or by its
    number. What is written is what is read, and nothing else is. */
module JsonSpelling {
  import opened Options
  import opened Bytes
  import opened Surrogates
  import opened Utf8
  import opened JsonStrings

  /** Each hexadecimal digit of a number may be upper or lower case. */
  datatype Style = AsIs | ByLetter | ByNumber(upper: int -> bool)

  /** The characters that have a letter, and the letter. */
  function LetterFor(c: Scalar): Option<char> {
    if c == '\"' as int then Some('\"')
    else if c == '\\' as int then Some('\\')
    else if c == '/' as int then Some('/')
    else if c == '\n' as int then Some('n')
    else if c == '\r' as int then Some('r')
    else if c == '\t' as int then Some('t')
    else if c == 8 then Some('b') // backspace
    else if c == 12 then Some('f') // form feed
    else None
  }

  predicate Allows(style: Style, c: Scalar) {
    match style
    case AsIs => c >= ' ' as int && c != '\"' as int && c != '\\' as int
    case ByLetter => LetterFor(c).Some?
    case ByNumber(_) => true
  }

  function Digit(n: nat, upper: bool): byte
    requires n < 16
  {
    if n < 10 then '0' as int + n else (if upper then 'A' else 'a') as int + (n - 10)
  }

  function Digits(n: Unit, upper: int -> bool, k: int): seq<byte> {
    [Digit(n / 0x1000, upper(k)), Digit(n / 0x100 % 16, upper(k + 1)), Digit(n / 0x10 % 16, upper(k + 2)), Digit(n % 16, upper(k + 3))]
  }

  function Numbered(n: Unit, upper: int -> bool, k: int): seq<byte> {
    ['\\' as int, 'u' as int] + Digits(n, upper, k)
  }

  function Spelled(style: Style, c: Scalar): seq<byte>
    requires Allows(style, c)
  {
    match style
    case AsIs => Encode(c)
    case ByLetter => ['\\' as int, LetterFor(c).value as int]
    case ByNumber(upper) => if c < 0x10000 then Numbered(c, upper, 0) else Numbered(High(c), upper, 0) + Numbered(Low(c), upper, 4)
  }

  // ---------------------------------------------------------------- one character

  lemma DigitIsRead(n: nat, upper: bool)
    requires n < 16
    ensures HexDigit(Digit(n, upper)) == Some(n)
  {}

  lemma DigitIsWritten(b: byte)
    ensures HexDigit(b).Some? ==> HexDigit(b).value < 16 && Digit(HexDigit(b).value, b < 'a' as int) == b
  {}

  lemma DigitsOf(n: Unit)
    ensures n == ((n / 0x1000 * 16 + n / 0x100 % 16) * 16 + n / 0x10 % 16) * 16 + n % 16
  {}

  lemma DigitsAreRead(n: Unit, upper: int -> bool, k: int)
    ensures IsQuad(Digits(n, upper, k)) && Quad(Digits(n, upper, k)) == n
  {
    hide HexDigit, Digit;
    DigitIsRead(n / 0x1000, upper(k));
    DigitIsRead(n / 0x100 % 16, upper(k + 1));
    DigitIsRead(n / 0x10 % 16, upper(k + 2));
    DigitIsRead(n % 16, upper(k + 3));
    DigitsOf(n);
  }

  lemma FourDigits(a: nat, b: nat, c: nat, d: nat)
    requires a < 16 && b < 16 && c < 16 && d < 16
    ensures var n := ((a * 16 + b) * 16 + c) * 16 + d;
      n < 0x10000 && n / 0x1000 == a && n / 0x100 % 16 == b && n / 0x10 % 16 == c && n % 16 == d
  {}

  lemma DigitsAreWritten(quad: seq<byte>, upper: int -> bool, k: int)
    requires IsQuad(quad) && forall j :: 0 <= j < 4 ==> upper(k + j) == (quad[j] < 'a' as int)
    ensures Digits(Quad(quad), upper, k) == quad
  {
    hide HexDigit, Digit;
    DigitIsWritten(quad[0]);
    DigitIsWritten(quad[1]);
    DigitIsWritten(quad[2]);
    DigitIsWritten(quad[3]);
    FourDigits(HexDigit(quad[0]).value, HexDigit(quad[1]).value, HexDigit(quad[2]).value, HexDigit(quad[3]).value);
    assert upper(k + 0) == upper(k);
  }

  function ItemOf(style: Style, c: Scalar): Item
    requires Allows(style, c)
  {
    match style
    case AsIs => Verbatim(c)
    case ByLetter => Short(LetterFor(c).value as int)
    case ByNumber(upper) =>
      if c < 0x10000 then JsonStrings.Unicode(Digits(c, upper, 0)) else JsonStrings.Pair(Digits(High(c), upper, 0), Digits(Low(c), upper, 4))
  }

  lemma SpellingIsRead(style: Style, c: Scalar)
    requires Allows(style, c)
    ensures IsItem(ItemOf(style, c)) && Source(ItemOf(style, c)) == Spelled(style, c) && Meaning(ItemOf(style, c)) == c
  {
    match style
    case AsIs =>
    case ByLetter => hide Encode;
    case ByNumber(upper) =>
      if c < 0x10000 {
        DigitsAreRead(c, upper, 0);
        hide Digits, Quad;
      } else {
        PairIsRead(c, upper);
      }
  }

  lemma PairIsRead(c: Scalar, upper: int -> bool)
    requires c >= 0x10000
    ensures var i := ItemOf(ByNumber(upper), c); IsItem(i) && Source(i) == Spelled(ByNumber(upper), c) && Meaning(i) == c
  {
    DigitsAreRead(High(c), upper, 0);
    DigitsAreRead(Low(c), upper, 4);
    PairsAreSupplementary(High(c), Low(c), c);
    hide Digits, Quad, High, Low;
    assert Numbered(High(c), upper, 0) + Numbered(Low(c), upper, 4) == Source(ItemOf(ByNumber(upper), c));
  }

  /** There is nothing else to read: every item is its meaning spelled in some style. */
  lemma ItemIsSpelling(i: Item) returns (style: Style)
    requires IsItem(i)
    ensures Allows(style, Meaning(i)) && Spelled(style, Meaning(i)) == Source(i)
  {
    match i
    case Verbatim(c) => style := AsIs;
    case Short(letter) => style := ByLetter;
    case Unicode(quad) =>
      style := ByNumber(k => 0 <= k < 4 && quad[k] < 'a' as int);
      DigitsAreWritten(quad, style.upper, 0);
    case Pair(high, low) => style := PairIsSpelling(high, low);
  }

  lemma PairIsSpelling(high: seq<byte>, low: seq<byte>) returns (style: Style)
    requires IsItem(JsonStrings.Pair(high, low))
    ensures var i := JsonStrings.Pair(high, low); Allows(style, Meaning(i)) && Spelled(style, Meaning(i)) == Source(i)
  {
    style := ByNumber(k => if 0 <= k < 4 then high[k] < 'a' as int else 4 <= k < 8 && low[k - 4] < 'a' as int);
    CasesOf(high, low, style.upper);
    hide *;
    PairIsWritten(high, low, style.upper);
  }

  /** The cases of eight digits. */
  ghost predicate Cases(high: seq<byte>, low: seq<byte>, upper: int -> bool)
    requires |high| == |low| == 4
  {
    && (forall j :: 0 <= j < 4 ==> upper(0 + j) == (high[j] < 'a' as int))
    && (forall j :: 0 <= j < 4 ==> upper(4 + j) == (low[j] < 'a' as int))
  }

  lemma CasesOf(high: seq<byte>, low: seq<byte>, upper: int -> bool)
    requires |high| == |low| == 4
    requires forall k :: upper(k) == if 0 <= k < 4 then high[k] < 'a' as int else 4 <= k < 8 && low[k - 4] < 'a' as int
    ensures Cases(high, low, upper)
  {}

  lemma PairIsWritten(high: seq<byte>, low: seq<byte>, upper: int -> bool)
    requires IsItem(JsonStrings.Pair(high, low)) && Cases(high, low, upper)
    ensures var i := JsonStrings.Pair(high, low); Allows(ByNumber(upper), Meaning(i)) && Spelled(ByNumber(upper), Meaning(i)) == Source(i)
  {
    hide HexDigit, Digit;
    DigitsAreWritten(high, upper, 0);
    DigitsAreWritten(low, upper, 4);
    var c := Meaning(JsonStrings.Pair(high, low));
    PairsAreSupplementary(Quad(high), Quad(low), c);
    hide Digits, Quad, High, Low, Cases;
    assert Numbered(High(c), upper, 0) + Numbered(Low(c), upper, 4) == Source(JsonStrings.Pair(high, low));
  }

  // ---------------------------------------------------------------- whole strings

  datatype Written = Written(c: Scalar, style: Style)

  ghost predicate AllAllow(text: seq<Written>) {
    forall k :: 0 <= k < |text| ==> Allows(text[k].style, text[k].c)
  }

  function Spell(text: seq<Written>): seq<byte>
    requires AllAllow(text)
  {
    if text == [] then [] else Spelled(text[0].style, text[0].c) + Spell(text[1..])
  }

  function TextOf(text: seq<Written>): seq<byte> {
    if text == [] then [] else Encode(text[0].c) + TextOf(text[1..])
  }

  lemma {:induction false} SpelledItems(text: seq<Written>) returns (items: seq<Item>)
    requires AllAllow(text)
    ensures AllItems(items) && Body(items) == Spell(text) && Value(items) == TextOf(text)
  {
    if text == [] {
      items := [];
    } else {
      var rest := SpelledItems(text[1..]);
      var item := ItemOf(text[0].style, text[0].c);
      SpellingIsRead(text[0].style, text[0].c);
      items := [item] + rest;
      hide Source, IsItem, Meaning, Encode, Allows, Spelled;
      assert items[0] == item && items[1..] == rest;
      assert AllItems(items);
    }
  }

  lemma {:induction false} ItemsAreSpelled(items: seq<Item>) returns (text: seq<Written>)
    requires AllItems(items)
    ensures AllAllow(text) && Spell(text) == Body(items) && TextOf(text) == Value(items)
  {
    if items == [] {
      text := [];
    } else {
      var rest := ItemsAreSpelled(items[1..]);
      var style := ItemIsSpelling(items[0]);
      var first := Written(Meaning(items[0]), style);
      text := [first] + rest;
      hide Source, IsItem, Meaning, Encode, Allows, Spelled;
      assert text[0] == first && text[1..] == rest;
      assert AllAllow(text);
    }
  }

  /** Round trip: any text, each of its characters in any style that allows it, is read back as that
      text, wherever the string stands. */
  lemma WrittenIsRead(text: seq<Written>, rest: seq<byte>)
    requires AllAllow(text)
    ensures var parsed := Parse(Spell(text) + [QUOTE] + rest);
      parsed.Some? && AllItems(parsed.value) && Value(parsed.value) == TextOf(text)
  {
    var items := SpelledItems(text);
    hide Parse, Body, Spell, TextOf, Value;
    ParseIsExact(Spell(text) + [QUOTE] + rest, items);
  }

  /** And whatever is read had been written so. */
  lemma ReadIsWritten(s: seq<byte>) returns (text: seq<Written>)
    requires Parse(s).Some?
    ensures AllItems(Parse(s).value)
    ensures AllAllow(text) && Spell(text) + [QUOTE] <= s && TextOf(text) == Value(Parse(s).value)
  {
    ParseIsExact(s, Parse(s).value);
    hide Parse, Body, Spell, TextOf, Value;
    text := ItemsAreSpelled(Parse(s).value);
  }
}
