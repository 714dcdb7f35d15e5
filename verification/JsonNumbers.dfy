/** Numbers of section 6 of RFC 8259, and an automaton that recognises them byte by byte. */
module JsonNumbers {
  import opened Options
  import opened Bytes

  const MINUS: byte := 0x2D
  const PLUS: byte := 0x2B
  const DOT: byte := 0x2E
  const ZERO: byte := 0x30
  const SMALL_E: byte := 0x65
  const LARGE_E: byte := 0x45

  predicate IsDigit(b: byte) {
    0x30 <= b <= 0x39
  }

  predicate IsMark(b: byte) {
    b == SMALL_E || b == LARGE_E
  }

  predicate IsSign(b: byte) {
    b == PLUS || b == MINUS
  }

  /** What may follow a number: white space, or what may follow a value inside an array or object. */
  predicate IsTerminator(b: byte) {
    b == 0x20 || b == 0x0A || b == 0x0D || b == 0x09 || b == 0x2C || b == 0x5D || b == 0x7D
  }

  // ---------------------------------------------------------------- the grammar

  datatype Exponent = Exponent(mark: byte, sign: Option<byte>, digits: seq<byte>)

  datatype Numeral = Numeral(minus: bool, int': seq<byte>, frac: Option<seq<byte>>, exp: Option<Exponent>)

  ghost predicate Digits(s: seq<byte>) {
    forall i :: 0 <= i < |s| ==> IsDigit(s[i])
  }

  ghost predicate IsInt(s: seq<byte>) {
    s != [] && Digits(s) && (s[0] == ZERO ==> |s| == 1)
  }

  ghost predicate IsNumeral(n: Numeral) {
    && IsInt(n.int')
    && (n.frac.Some? ==> n.frac.value != [] && Digits(n.frac.value))
    && (n.exp.Some? ==>
          var e := n.exp.value;
          IsMark(e.mark) && (e.sign.Some? ==> IsSign(e.sign.value)) && e.digits != [] && Digits(e.digits))
  }

  function Opt(o: Option<byte>): seq<byte> {
    if o.Some? then [o.value] else []
  }

  function FracText(f: Option<seq<byte>>): seq<byte> {
    if f.Some? then [DOT] + f.value else []
  }

  function ExpText(e: Option<Exponent>): seq<byte> {
    if e.Some? then [e.value.mark] + Opt(e.value.sign) + e.value.digits else []
  }

  function Text(n: Numeral): seq<byte> {
    (if n.minus then [MINUS] else []) + n.int' + FracText(n.frac) + ExpText(n.exp)
  }

  ghost predicate IsNumber(s: seq<byte>) {
    exists n :: IsNumeral(n) && Text(n) == s
  }

  /** A number stands at the start of `s`, `n` bytes long, and what follows may follow it. */
  ghost predicate NumberAt(s: seq<byte>, n: nat) {
    n <= |s| && IsNumber(s[..n]) && (n < |s| ==> IsTerminator(s[n]))
  }

  // ---------------------------------------------------------------- the automaton

  datatype State = Start | Minus | Zero | Int | Dot | Frac | Mark | Sign | Exp | Stuck

  predicate Final(state: State) {
    state == Zero || state == Int || state == Frac || state == Exp
  }

  function Step(state: State, b: byte): State {
    match state
    case Start => if b == MINUS then Minus else if b == ZERO then Zero else if IsDigit(b) then Int else Stuck
    case Minus => if b == ZERO then Zero else if IsDigit(b) then Int else Stuck
    case Zero => if b == DOT then Dot else if IsMark(b) then Mark else Stuck
    case Int => if IsDigit(b) then Int else if b == DOT then Dot else if IsMark(b) then Mark else Stuck
    case Dot => if IsDigit(b) then Frac else Stuck
    case Frac => if IsDigit(b) then Frac else if IsMark(b) then Mark else Stuck
    case Mark => if IsSign(b) then Sign else if IsDigit(b) then Exp else Stuck
    case Sign => if IsDigit(b) then Exp else Stuck
    case Exp => if IsDigit(b) then Exp else Stuck
    case Stuck => Stuck
  }

  function Run(state: State, s: seq<byte>): State {
    if s == [] then state else Step(Run(state, s[..|s| - 1]), s[|s| - 1])
  }

  lemma RunPush(state: State, s: seq<byte>, b: byte)
    ensures Run(state, s + [b]) == Step(Run(state, s), b)
  {
    assert (s + [b])[..|s|] == s;
  }

  lemma {:induction false} RunAppend(state: State, s: seq<byte>, t: seq<byte>)
    ensures Run(state, s + t) == Run(Run(state, s), t)
  {
    if t == [] {
      assert s + t == s;
    } else {
      var front, last := t[..|t| - 1], t[|t| - 1];
      RunAppend(state, s, front);
      assert s + t == s + front + [last];
      RunPush(state, s + front, last);
    }
  }

  lemma OnlyNothingStarts(s: seq<byte>)
    requires Run(Start, s) == Start
    ensures s == []
  {}

  /** Digits keep a digit state. */
  lemma {:induction false} RunDigits(state: State, s: seq<byte>)
    requires Digits(s) && (state == Int || state == Frac || state == Exp)
    ensures Run(state, s) == state
  {
    if s != [] {
      RunDigits(state, s[..|s| - 1]);
    }
  }

  lemma RunInt(state: State, s: seq<byte>)
    requires IsInt(s) && (state == Start || state == Minus)
    ensures Run(state, s) == if s[0] == ZERO then Zero else Int
  {
    assert s == [s[0]] + s[1..];
    assert Run(state, []) == state;
    RunPush(state, [], s[0]);
    assert [] + [s[0]] == [s[0]];
    RunAppend(state, [s[0]], s[1..]);
    if s[0] != ZERO {
      RunDigits(Int, s[1..]);
    }
  }

  /** One byte into a digit state, then digits. */
  lemma RunInto(state: State, b: byte, s: seq<byte>)
    requires Digits(s) && (Step(state, b) == Int || Step(state, b) == Frac || Step(state, b) == Exp)
    ensures Run(state, [b] + s) == Step(state, b)
  {
    assert Run(state, []) == state && [] + [b] == [b];
    RunPush(state, [], b);
    RunAppend(state, [b], s);
    RunDigits(Step(state, b), s);
  }

  lemma RunFrac(state: State, f: Option<seq<byte>>)
    requires (state == Zero || state == Int) && (f.Some? ==> f.value != [] && Digits(f.value))
    ensures Run(state, FracText(f)) == if f.Some? then Frac else state
  {
    if f.Some? {
      var d := f.value;
      assert d == [d[0]] + d[1..];
      assert Run(state, []) == state && [] + [DOT] == [DOT];
      RunPush(state, [], DOT);
      RunAppend(state, [DOT], d);
      RunInto(Dot, d[0], d[1..]);
    }
  }

  lemma RunExp(state: State, e: Exponent)
    requires state == Zero || state == Int || state == Frac
    requires IsMark(e.mark) && (e.sign.Some? ==> IsSign(e.sign.value)) && e.digits != [] && Digits(e.digits)
    ensures Run(state, ExpText(Some(e))) == Exp
  {
    var d := e.digits;
    assert d == [d[0]] + d[1..];
    assert Run(state, []) == state && [] + [e.mark] == [e.mark];
    RunPush(state, [], e.mark);
    if e.sign.Some? {
      RunPush(state, [e.mark], e.sign.value);
      RunAppend(state, [e.mark] + [e.sign.value], d);
      RunInto(Sign, d[0], d[1..]);
    } else {
      assert [e.mark] + Opt(e.sign) + d == [e.mark] + d;
      RunAppend(state, [e.mark], d);
      RunInto(Mark, d[0], d[1..]);
    }
  }

  lemma NumeralRuns(n: Numeral)
    requires IsNumeral(n)
    ensures Final(Run(Start, Text(n)))
  {
    var a, b, c, d := if n.minus then [MINUS] else [], n.int', FracText(n.frac), ExpText(n.exp);
    assert Run(Start, []) == Start && [] + [MINUS] == [MINUS];
    RunPush(Start, [], MINUS);
    var first := if n.minus then Minus else Start;
    assert Run(Start, a) == first;
    RunAppend(Start, a, b);
    RunInt(first, b);
    var second := Run(Start, a + b);
    RunAppend(Start, a + b, c);
    RunFrac(second, n.frac);
    var third := Run(Start, a + b + c);
    RunAppend(Start, a + b + c, d);
    if n.exp.Some? {
      RunExp(third, n.exp.value);
    } else {
      assert d == [];
    }
  }

  // ---------------------------------------------------------------- what a state has read

  /** The numeral under way in a state. */
  ghost predicate Reads(state: State, n: Numeral) {
    match state
    case Start => n == Numeral(false, [], None, None)
    case Minus => n == Numeral(true, [], None, None)
    case Zero => n.int' == [ZERO] && n.frac.None? && n.exp.None?
    case Int => IsInt(n.int') && n.int'[0] != ZERO && n.frac.None? && n.exp.None?
    case Dot => IsInt(n.int') && n.frac == Some([]) && n.exp.None?
    case Frac => n.frac.Some? && n.exp.None? && IsNumeral(n)
    case Mark => n.exp.Some? && n.exp.value.digits == [] && n.exp.value.sign.None? && IsMark(n.exp.value.mark) && IsNumeral(n.(exp := None))
    case Sign => n.exp.Some? && n.exp.value.digits == [] && n.exp.value.sign.Some? && IsSign(n.exp.value.sign.value)
                 && IsMark(n.exp.value.mark) && IsNumeral(n.(exp := None))
    case Exp => n.exp.Some? && IsNumeral(n)
    case Stuck => false
  }

  ghost function Longer(state: State, n: Numeral, b: byte): Numeral {
    match Step(state, b)
    case Minus => n.(minus := true)
    case Zero => n.(int' := [b])
    case Int => n.(int' := n.int' + [b])
    case Dot => n.(frac := Some([]))
    case Frac => if n.frac.Some? then n.(frac := Some(n.frac.value + [b])) else n
    case Mark => n.(exp := Some(Exponent(b, None, [])))
    case Sign => if n.exp.Some? then n.(exp := Some(n.exp.value.(sign := Some(b)))) else n
    case Exp => if n.exp.Some? then n.(exp := Some(n.exp.value.(digits := n.exp.value.digits + [b]))) else n
    case _ => n
  }

  ghost predicate LongerIs(state: State, n: Numeral, b: byte) {
    Reads(Step(state, b), Longer(state, n, b)) && Text(Longer(state, n, b)) == Text(n) + [b]
  }

  lemma LongerInt(state: State, n: Numeral, b: byte)
    requires Reads(state, n) && Step(state, b) in {Minus, Zero, Int}
    ensures LongerIs(state, n, b)
  {}

  lemma LongerFrac(state: State, n: Numeral, b: byte)
    requires Reads(state, n) && Step(state, b) in {Dot, Frac}
    ensures LongerIs(state, n, b)
  {}

  lemma LongerExp(state: State, n: Numeral, b: byte)
    requires Reads(state, n) && Step(state, b) in {Mark, Sign, Exp}
    ensures LongerIs(state, n, b)
  {
    var m := Longer(state, n, b);
    assert ExpText(m.exp) == ExpText(n.exp) + [b];
    var front := (if n.minus then [MINUS] else []) + n.int' + FracText(n.frac);
    assert front + (ExpText(n.exp) + [b]) == front + ExpText(n.exp) + [b];
    hide ExpText;
  }

  lemma LongerReads(state: State, n: Numeral, b: byte)
    requires Reads(state, n) && Step(state, b) != Stuck
    ensures LongerIs(state, n, b)
  {
    hide LongerIs, Reads;
    assert Step(state, b) != Start;
    hide Step;
    match Step(state, b)
    case Minus => LongerInt(state, n, b);
    case Zero => LongerInt(state, n, b);
    case Int => LongerInt(state, n, b);
    case Dot => LongerFrac(state, n, b);
    case Frac => LongerFrac(state, n, b);
    case Mark => LongerExp(state, n, b);
    case Sign => LongerExp(state, n, b);
    case Exp => LongerExp(state, n, b);
  }

  lemma {:induction false} RunReads(s: seq<byte>) returns (n: Numeral)
    requires Run(Start, s) != Stuck
    ensures Reads(Run(Start, s), n) && Text(n) == s
  {
    if s == [] {
      n := Numeral(false, [], None, None);
    } else {
      var front, last := s[..|s| - 1], s[|s| - 1];
      var m := RunReads(front);
      LongerReads(Run(Start, front), m, last);
      n := Longer(Run(Start, front), m, last);
      assert s == front + [last];
    }
  }

  /** The automaton recognises exactly the numbers of the grammar. */
  lemma AutomatonIsExact(s: seq<byte>)
    ensures IsNumber(s) <==> Final(Run(Start, s))
  {
    if IsNumber(s) {
      var n :| IsNumeral(n) && Text(n) == s;
      NumeralRuns(n);
    }
    if Final(Run(Start, s)) {
      var n := RunReads(s);
      assert IsNumeral(n);
    }
  }

  /** Every byte of a number that has not ended could still belong to one. */
  lemma {:induction false} NoTerminatorInside(s: seq<byte>, k: nat)
    requires Run(Start, s) != Stuck && k < |s|
    ensures !IsTerminator(s[k]) && Run(Start, s[..k]) != Stuck
  {
    if k == |s| - 1 {
    } else {
      NoTerminatorInside(s[..|s| - 1], k);
      assert s[..|s| - 1][..k] == s[..k];
    }
  }

  lemma {:induction false} StuckStays(s: seq<byte>, k: nat)
    requires k <= |s| && Run(Start, s[..k]) == Stuck
    ensures Run(Start, s) == Stuck
    decreases |s|
  {
    if k < |s| {
      assert s[..|s| - 1][..k] == s[..k];
      StuckStays(s[..|s| - 1], k);
    } else {
      assert s[..k] == s;
    }
  }

  /** Where the automaton has come to a stop, whether there is a number at all is decided. */
  lemma StopDecides(s: seq<byte>, k: nat)
    requires k <= |s| && Run(Start, s[..k]) != Stuck
    requires k < |s| ==> Run(Start, s[..k + 1]) == Stuck
    ensures forall n :: NumberAt(s, n) ==> n == k
    ensures NumberAt(s, k) <==> Final(Run(Start, s[..k])) && (k < |s| ==> IsTerminator(s[k]))
  {
    AutomatonIsExact(s[..k]);
    forall n: nat | NumberAt(s, n) ensures n == k {
      AutomatonIsExact(s[..n]);
      if n < k {
        NoTerminatorInside(s[..k], n);
      } else if n > k {
        assert s[..n][..k + 1] == s[..k + 1];
        StuckStays(s[..n], k + 1);
      }
    }
  }
}
