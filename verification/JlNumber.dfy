/** The numbers of JL: doubles, as strtod reads them and JLPrint writes them. */
module JlNumber {
  datatype Option<T> = None | Some(value: T)

  /** A double; the two zeros are one number. */
  datatype Double = Finite(value: real) | Infinite | Nan

  /** What the C library and the processor do with doubles: strtod of a whole token (None if it leaves some of it), the
      double and the float nearest to a number, and the conversion to int16_t, which C leaves open outside its range. */
  datatype Arith = Arith(strtod: string -> Option<Double>, nearest: real -> Double, single: real -> Double, int16: Double -> int)

  // ----- decimal digits -----

  predicate IsDigit(ch: char) {
    '0' <= ch <= '9'
  }

  predicate AllDigits(s: string) {
    forall k :: 0 <= k < |s| ==> IsDigit(s[k])
  }

  function DigitChar(n: nat): (ch: char)
    requires n < 10
    ensures IsDigit(ch)
  {
    '0' + n as char
  }

  /** The number a string of digits writes. */
  function NatOf(s: string): nat
    requires AllDigits(s)
  {
    if s == [] then 0 else 10 * NatOf(s[..|s| - 1]) + (s[|s| - 1] as int - '0' as int)
  }

  function Pow10(n: nat): (p: nat)
    ensures p > 0
  {
    if n == 0 then 1 else 10 * Pow10(n - 1)
  }

  function Digits(n: nat): (s: string)
    ensures s != [] && AllDigits(s)
  {
    if n < 10 then [DigitChar(n)] else Digits(n / 10) + [DigitChar(n % 10)]
  }

  /** The last k digits of n. */
  function LastDigits(n: nat, k: nat): (s: string)
    ensures |s| == k && AllDigits(s)
  {
    if k == 0 then [] else LastDigits(n / 10, k - 1) + [DigitChar(n % 10)]
  }

  lemma NatOfMore(s: string, n: nat)
    requires AllDigits(s) && n < 10
    ensures AllDigits(s + [DigitChar(n)]) && NatOf(s + [DigitChar(n)]) == 10 * NatOf(s) + n
  {
    var t := s + [DigitChar(n)];
    assert t[..|t| - 1] == s;
  }

  lemma {:induction false} DigitsRead(n: nat)
    ensures NatOf(Digits(n)) == n
  {
    if n < 10 {
      NatOfMore([], n);
      assert Digits(n) == [] + [DigitChar(n)];
    } else {
      DigitsRead(n / 10);
      NatOfMore(Digits(n / 10), n % 10);
    }
  }

  lemma {:induction false} LastDigitsRead(n: nat, k: nat)
    requires n < Pow10(k)
    ensures NatOf(LastDigits(n, k)) == n
  {
    if k > 0 {
      LastDigitsRead(n / 10, k - 1);
      NatOfMore(LastDigits(n / 10, k - 1), n % 10);
    }
  }

  // ----- numerals -----

  /** A numeral: a sign, digits, and digits behind a point if there are any. */
  function Written(neg: bool, whole: string, part: string): string {
    (if neg then "-" else "") + whole + if part == [] then [] else ['.'] + part
  }

  function RealOf(neg: bool, whole: string, part: string): real
    requires AllDigits(whole) && AllDigits(part)
  {
    var v := NatOf(whole) as real + NatOf(part) as real / Pow10(|part|) as real;
    if neg then -v else v
  }

  /** Every whole number up to 2^24 is a float and a double, and fits when it is an int16_t; strtod gives the double
      nearest to what a numeral means. */
  ghost predicate Sane(a: Arith) {
    && (forall v: real :: v == v.Floor as real && -16777216.0 <= v <= 16777216.0 ==>
          a.nearest(v) == Finite(v) && a.single(v) == Finite(v))
    && (forall x: Double :: -0x8000 <= a.int16(x) < 0x8000)
    && (forall v: real :: v == v.Floor as real && -32768.0 <= v <= 32767.0 ==> a.int16(Finite(v)) == v.Floor)
    && (forall neg: bool, whole: string, part: string :: whole != [] && AllDigits(whole) && AllDigits(part) ==>
          a.strtod(Written(neg, whole, part)) == Some(a.nearest(RealOf(neg, whole, part))))
    && a.strtod("nan") == Some(Nan)
  }

  // ----- what JLPrint writes -----

  function Ceil(v: real): int {
    -((-v).Floor)
  }

  /** JLPrint's test for a whole number: rounded to a float and up, it is the same. */
  predicate Whole(a: Arith, x: Double) {
    match x
    case Finite(v) => var f := a.single(v); f.Finite? && Ceil(f.value) as real == v
    case Infinite => true
    case Nan => false
  }

  /** "%d". */
  function ShowInt(k: int): string {
    Written(k < 0, Digits(if k < 0 then -k else k), [])
  }

  /** Millionths, rounded to the nearest number, halves to the even one. */
  function Micros(v: real): nat
    requires v >= 0.0
  {
    var low := (v * 1000000.0).Floor;
    var rest := v * 1000000.0 - low as real;
    if rest < 0.5 || (rest == 0.5 && low % 2 == 0) then low else low + 1
  }

  /** "%f" of a finite number. */
  function ShowFixed(v: real): string {
    var m := Micros(if v < 0.0 then -v else v);
    Written(v < 0.0, Digits(m / 1000000), LastDigits(m % 1000000, 6))
  }

  /** The number as JLPrint writes it. */
  function ShowNumber(a: Arith, x: Double): string {
    if Whole(a, x) then ShowInt(a.int16(x)) else if x.Finite? then ShowFixed(x.value) else "nan"
  }

  /** The number rounded to six digits behind the point. */
  function Rounded(v: real): real {
    if v < 0.0 then -(Micros(-v) as real / 1000000.0) else Micros(v) as real / 1000000.0
  }

  /** The number survives being printed: if it counts as whole, it is an int16_t, else no double is nearer to what is left
      of it with six digits behind the point. */
  predicate Survives(a: Arith, x: Double) {
    if Whole(a, x) then x.Finite? && -32768.0 <= x.value <= 32767.0
    else x.Finite? ==> a.nearest(Rounded(x.value)) == x
  }

  /** No leading zeros. */
  lemma {:induction false} DigitsPlain(n: nat)
    ensures if n == 0 then Digits(n) == "0" else Digits(n)[0] != '0'
  {
    if n >= 10 { DigitsPlain(n / 10); }
  }

  /** A whole number is its digits, with a minus sign if it is negative. */
  lemma IntForm(k: int)
    ensures var s := ShowInt(k);
      if k < 0 then s[0] == '-' && AllDigits(s[1..]) && NatOf(s[1..]) == -k && s[1] != '0'
      else AllDigits(s) && NatOf(s) == k && (s[0] == '0' ==> s == "0")
  {
    var n := if k < 0 then -k else k;
    DigitsRead(n);
    DigitsPlain(n);
    if k < 0 {
      assert ShowInt(k) == "-" + Digits(n) && ("-" + Digits(n))[1..] == Digits(n);
    } else {
      assert ShowInt(k) == Digits(n);
    }
  }

  /** Any other number ends in a point and six digits, and is at most half a millionth off. */
  lemma FixedForm(v: real) returns (m: nat)
    ensures var s := ShowFixed(v);
      && |s| >= 8 && s[|s| - 7] == '.' && AllDigits(s[|s| - 6..]) && NatOf(s[|s| - 6..]) == m % 1000000
      && (v < 0.0 ==> s[0] == '-' && AllDigits(s[1..|s| - 7]) && NatOf(s[1..|s| - 7]) == m / 1000000)
      && (v >= 0.0 ==> AllDigits(s[..|s| - 7]) && NatOf(s[..|s| - 7]) == m / 1000000)
    ensures -0.5 <= (if v < 0.0 then -v else v) * 1000000.0 - m as real <= 0.5
  {
    MicrosNear(if v < 0.0 then -v else v);
    hide NatOf, AllDigits, Micros, Digits, LastDigits, Pow10;
    m := Micros(if v < 0.0 then -v else v);
    var whole, part := Digits(m / 1000000), LastDigits(m % 1000000, 6);
    DigitsRead(m / 1000000);
    Million();
    LastDigitsRead(m % 1000000, 6);
    Apart(v < 0.0, whole, part);
  }

  lemma MicrosNear(v: real)
    requires v >= 0.0
    ensures -0.5 <= v * 1000000.0 - Micros(v) as real <= 0.5
  {
  }

  lemma Apart(neg: bool, whole: string, part: string)
    requires whole != [] && |part| == 6
    ensures var s := Written(neg, whole, part);
      |s| >= 8 && s[|s| - 7] == '.' && s[|s| - 6..] == part && if neg then s[0] == '-' && s[1..|s| - 7] == whole else s[..|s| - 7] == whole
  {
    var s := Written(neg, whole, part);
    if neg {
      assert s == "-" + whole + (['.'] + part);
    } else {
      assert s == whole + (['.'] + part);
    }
  }

  lemma IntRead(a: Arith, k: int)
    requires Sane(a) && -0x8000 <= k < 0x8000
    ensures a.strtod(ShowInt(k)) == Some(Finite(k as real))
  {
    var n := if k < 0 then -k else k;
    DigitsRead(n);
    assert NatOf([]) == 0;
    assert RealOf(k < 0, Digits(n), []) == k as real;
    assert a.nearest(k as real) == Finite(k as real);
  }

  /** The two halves of a number of millionths. */
  lemma Millionths(m: nat)
    ensures (m / 1000000) as real + (m % 1000000) as real / 1000000.0 == m as real / 1000000.0
  {
    var q, r := m / 1000000, m % 1000000;
    assert m as real == q as real * 1000000.0 + r as real;
  }

  lemma NumeralRead(a: Arith, neg: bool, whole: string, part: string)
    requires Sane(a) && whole != [] && AllDigits(whole) && AllDigits(part)
    ensures a.strtod(Written(neg, whole, part)) == Some(a.nearest(RealOf(neg, whole, part)))
  {
  }

  lemma RealOfParts(neg: bool, whole: string, part: string, q: nat, r: nat)
    requires AllDigits(whole) && AllDigits(part) && NatOf(whole) == q && NatOf(part) == r && Pow10(|part|) == 1000000
    ensures RealOf(neg, whole, part) == var v := q as real + r as real / 1000000.0; if neg then -v else v
  {
  }

  lemma FixedRead(a: Arith, v: real)
    requires Sane(a)
    ensures a.strtod(ShowFixed(v)) == Some(a.nearest(Rounded(v)))
  {
    hide Micros, Sane, Written, RealOf, NatOf, AllDigits, Digits, LastDigits, Pow10;
    var m := Micros(if v < 0.0 then -v else v);
    var whole, part := Digits(m / 1000000), LastDigits(m % 1000000, 6);
    DigitsRead(m / 1000000);
    Million();
    LastDigitsRead(m % 1000000, 6);
    RealOfParts(v < 0.0, whole, part, m / 1000000, m % 1000000);
    Millionths(m);
    NumeralRead(a, v < 0.0, whole, part);
  }

  lemma Million()
    ensures Pow10(6) == 1000000
  {
  }

  /** What JLPrint writes for a number is read as that number exactly if the number survives. */
  lemma NumberReadsBack(a: Arith, x: Double)
    requires Sane(a)
    ensures a.strtod(ShowNumber(a, x)).Some?
    ensures a.strtod(ShowNumber(a, x)) == Some(x) <==> Survives(a, x)
  {
    hide ShowInt, ShowFixed, Rounded;
    if Whole(a, x) {
      IntRead(a, a.int16(x));
      if x.Finite? {
        var k := Ceil(a.single(x.value).value);
        assert x == Finite(k as real);
      }
    } else if x.Finite? {
      FixedRead(a, x.value);
    }
  }

  /** A number that is nearest to one with six digits behind the point, and less than half a millionth away from it,
      survives if it does not count as whole. */
  lemma SixDigits(a: Arith, v: real, k: int)
    requires !Whole(a, Finite(v)) && a.nearest(k as real / 1000000.0) == Finite(v)
    requires -0.5 < v * 1000000.0 - k as real < 0.5
    ensures Survives(a, Finite(v))
  {
    assert v < 0.0 ==> (-v) * 1000000.0 == -(v * 1000000.0);
    MicrosOf(if v < 0.0 then -v else v, if v < 0.0 then -k else k);
  }

  lemma MicrosOf(v: real, k: int)
    requires v >= 0.0 && -0.5 < v * 1000000.0 - k as real < 0.5
    ensures Micros(v) == k
  {
  }

  /** 40000 is written as another number, whatever the conversion gives, and a ten-millionth as zero. */
  lemma NumbersLost(a: Arith)
    requires Sane(a)
    ensures a.strtod("40000") == Some(Finite(40000.0)) && !Survives(a, Finite(40000.0))
    ensures ShowNumber(a, Finite(0.0000001)) == "0.000000" && !Survives(a, Finite(0.0000001))
  {
    FortyThousand();
    var f := 0.0000001;
    assert Micros(f) == 0;
    assert Written(false, Digits(0), LastDigits(0, 6)) == "0.000000";
    assert a.nearest(0.0) == Finite(0.0);
    assert RealOf(false, "40000", "") == 40000.0;
    assert Written(false, "40000", "") == "40000";
  }

  lemma FortyThousand()
    ensures AllDigits("40000") && NatOf("40000") == 40000 && NatOf("") == 0
  {
    assert "40000"[..4] == "4000" && "4000"[..3] == "400" && "400"[..2] == "40" && "40"[..1] == "4" && "4"[..0] == "";
  }
}
