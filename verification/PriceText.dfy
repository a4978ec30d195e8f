/** Fixed-point prices are exact: what the price parser reads, related to the number the text denotes. */
module PriceText {
  import opened Modular
  import opened Decimal

  /** A price text: optional sign, integer digits, a point, fraction digits. */
  function Text(negative: bool, i: string, f: string): string {
    Sign(negative) + (i + ("." + f))
  }

  function Signed(negative: bool, v: int): int {
    if negative then 0 - v else v
  }

  /** Where the parser stops after the integer digits, and what it makes of the rest. */
  lemma PartsOf(t: string, negative: bool, i: string, more: string)
    requires t == Sign(negative) + (i + more) && AllDigits(i)
    requires more == "" || !(IsDigit(more[0]) || (!negative && i == "" && more[0] == '-'))
    ensures IsNegative(t) == negative && IntegerPart(t) == i
    ensures FractionPart(t) == if more != "" && more[0] == '.' then Digits(more[1..]) else ""
  {
    if negative {
      assert t[1..] == i + more;
    } else {
      assert t == i + more;
      assert i != "" ==> t[0] == i[0] && IsDigit(i[0]);
    }
    DigitsOf(i, more);
    assert (i + more)[|i|..] == more;
  }

  lemma TextParts(negative: bool, i: string, f: string, rest: string)
    requires AllDigits(i) && AllDigits(f) && (rest == "" || !IsDigit(rest[0]))
    ensures var t := Text(negative, i, f) + rest;
      IsNegative(t) == negative && IntegerPart(t) == i && FractionPart(t) == f
  {
    hide IsNegative, IntegerPart, FractionPart, Digits;
    var tail := "." + (f + rest);
    TextSplit(negative, i, f, rest);
    PartsOf(Text(negative, i, f) + rest, negative, i, tail);
    assert tail[1..] == f + rest;
    DigitsOf(f, rest);
  }

  lemma TextSplit(negative: bool, i: string, f: string, rest: string)
    ensures Text(negative, i, f) + rest == Sign(negative) + (i + ("." + (f + rest)))
  {
    assert (i + ("." + f)) + rest == i + ("." + (f + rest));
  }

  /** A price text without a fraction: optional sign and integer digits. */
  function Whole(negative: bool, i: string): string {
    Sign(negative) + i
  }

  /**
   `t` starts with the sign, the integer digits `i` and the fraction digits `f`, and goes on with
   `rest`, which does not continue them; without a fraction the point may be missing.
   */
  predicate IsDecimal(t: string, negative: bool, i: string, f: string, rest: string) {
    || (t == Text(negative, i, f) + rest && (rest == "" || !('0' <= rest[0] <= '9')))
    || (f == "" && t == Whole(negative, i) + rest
        && (rest == "" || !('0' <= rest[0] <= '9' || rest[0] == '.' || (!negative && i == "" && rest[0] == '-'))))
  }

  /** A text cut at the end of its integer digits. */
  lemma CutsAt(t: string) returns (more: string)
    ensures t == Sign(IsNegative(t)) + (IntegerPart(t) + more) && (more == "" || !IsDigit(more[0]))
    ensures !IsNegative(t) && IntegerPart(t) == "" && more != "" ==> more[0] != '-'
  {
    more := Unsigned(t)[|IntegerPart(t)|..];
    assert Unsigned(t) == IntegerPart(t) + more;
  }

  lemma CutsFraction(negative: bool, i: string, f: string, more: string) returns (rest: string)
    requires more != "" && more[0] == '.' && f == Digits(more[1..])
    ensures Sign(negative) + (i + more) == Text(negative, i, f) + rest && (rest == "" || !IsDigit(rest[0]))
  {
    rest := more[1..][|f|..];
    assert more[1..] == f + rest;
    assert more == "." + (f + rest);
    TextSplit(negative, i, f, rest);
  }

  /** Every text is of this form. */
  lemma EveryTextIsDecimal(t: string)
    ensures exists rest :: IsDecimal(t, IsNegative(t), IntegerPart(t), FractionPart(t), rest)
  {
    var n, i := IsNegative(t), IntegerPart(t);
    var more := CutsAt(t);
    PartsOf(t, n, i, more);
    hide IsNegative, IntegerPart, FractionPart, Text, Whole, Sign;
    if more != "" && more[0] == '.' {
      var rest := CutsFraction(n, i, FractionPart(t), more);
      assert IsDecimal(t, n, i, FractionPart(t), rest);
    } else {
      WholeSplit(n, i, more);
      assert IsDecimal(t, n, i, "", more);
    }
  }

  lemma WholeSplit(negative: bool, i: string, rest: string)
    ensures Whole(negative, i) + rest == Sign(negative) + (i + rest)
  {
  }

  lemma WholeParts(negative: bool, i: string, rest: string)
    requires AllDigits(i)
    requires rest == "" || !(IsDigit(rest[0]) || rest[0] == '.' || (!negative && i == "" && rest[0] == '-'))
    ensures var t := Whole(negative, i) + rest;
      IsNegative(t) == negative && IntegerPart(t) == i && FractionPart(t) == ""
  {
    hide IsNegative, IntegerPart, FractionPart, Whole;
    WholeSplit(negative, i, rest);
    PartsOf(Whole(negative, i) + rest, negative, i, rest);
  }

  /** The parser's weight for a fraction of which `k` digits still count. */
  function Weight(k: nat): nat {
    if k == 0 then 0 else Pow10(k - 1)
  }

  lemma WeightStep(k: nat)
    requires k > 0
    ensures Weight(k) / 10 == Weight(k - 1) && Weight(k) > 0
  {
  }

  /** The first `k` digits, or all of them. */
  function First(f: string, k: nat): string {
    if |f| <= k then f else f[..k]
  }

  lemma SplitFront(d: char, f: string)
    requires IsDigit(d) && AllDigits(f)
    ensures AllDigits([d] + f) && Value([d] + f) == DigitValue(d) * Pow10(|f|) + Value(f)
  {
    ValueAppend([d], f);
    assert [d][..0] == "";
    assert Value([d]) == DigitValue(d);
  }

  lemma Distribute(d: nat, v: nat, a: nat, b: nat, c: nat)
    requires a * b == c
    ensures (d * a + v) * b == d * c + v * b
  {
    assert (d * a) * b == d * (a * b);
  }

  lemma WeightedFront(f: string, k: nat)
    requires AllDigits(f) && f != "" && k > 0
    ensures Weighted(f, Weight(k)) == DigitValue(f[0]) * Pow10(k - 1) + Weighted(f[1..], Weight(k - 1))
    ensures First(f, k) == [f[0]] + First(f[1..], k - 1)
  {
    WeightStep(k);
  }

  /** The weighted digits are the counted digits, scaled to `k` places. */
  lemma {:induction false} WeightedIsValue(f: string, k: nat)
    requires AllDigits(f)
    ensures AllDigits(First(f, k))
    ensures Weighted(f, Weight(k)) == Value(First(f, k)) * Pow10(k - |First(f, k)|)
  {
    hide Pow10, Value;
    if f == "" || k == 0 {
      assert First(f, k) == "";
      ValueOfNothing();
    } else {
      hide Weighted, First;
      WeightedIsValue(f[1..], k - 1);
      var g := First(f[1..], k - 1);
      var p, d := Pow10(k - 1 - |g|), DigitValue(f[0]);
      WeightedFront(f, k);
      SplitFront(f[0], g);
      Pow10Add(|g|, k - 1 - |g|);
      Distribute(d, Value(g), Pow10(|g|), p, Pow10(k - 1));
    }
  }

  lemma SixDigits()
    ensures Weight(6) == MICROS / 10 && Pow10(6) == MICROS
  {
    assert Pow10(0) == 1;
    assert Pow10(1) == 10;
    assert Pow10(2) == 100;
    assert Pow10(3) == 1_000;
    assert Pow10(4) == 10_000;
    assert Pow10(5) == 100_000;
  }

  /** The value of the whole text in micros: integer and fraction digits read as one number, scaled and cut. */
  function Truncated(i: string, f: string): int
    requires AllDigits(i) && AllDigits(f) && AllDigits(i + f)
  {
    Value(i + f) * 1_000_000 / Pow10(|f|)
  }

  lemma Quotient(x: nat, n: nat, q: nat, r: nat)
    requires n > 0 && r < n && x == n * q + r
    ensures x / n == q
  {
    QuotientUnique(n, x / n, x % n, q, r);
  }

  lemma ShortArithmetic(n: nat, a: nat, v: nat, m: nat, p: nat, micros: nat)
    requires m > 0 && m * p == micros && n == a * m + v
    ensures n * micros / m == a * micros + v * p
  {
    calc {
      n * micros;
      (a * m) * micros + v * micros;
      m * (a * micros) + v * (m * p);
      m * (a * micros) + m * (v * p);
      m * (a * micros + v * p);
    }
    Quotient(n * micros, m, a * micros + v * p, 0);
  }

  lemma LongArithmetic(n: nat, w: nat, b: nat, rest: nat, micros: nat)
    requires rest < b && micros > 0 && n == w * b + rest
    ensures micros * b > 0 && n * micros / (micros * b) == w
  {
    assert n * micros == (micros * b) * w + rest * micros;
    assert rest * micros == micros * rest < micros * b;
    Quotient(n * micros, micros * b, w, rest * micros);
  }

  /** With at most six fraction digits nothing is cut. */
  lemma ShortIsExact(i: string, f: string)
    requires AllDigits(i) && AllDigits(f) && |f| <= 6
    ensures AllDigits(i + f)
    ensures Value(i) * MICROS + Weighted(f, MICROS / 10) == Truncated(i, f)
  {
    ValueAppend(i, f);
    SixDigits();
    Pow10Add(|f|, 6 - |f|);
    ShortArithmetic(Value(i + f), Value(i), Value(f), Pow10(|f|), Pow10(6 - |f|), MICROS);
    WeightedIsValue(f, 6);
    assert First(f, 6) == f;
  }

  lemma CutAtSix(i: string, a: string, b: string)
    requires AllDigits(i) && AllDigits(a) && AllDigits(b) && |a| == 6
    ensures AllDigits(i + (a + b)) && AllDigits(i + a)
    ensures Truncated(i, a + b) == Value(i + a)
  {
    SixDigits();
    assert i + (a + b) == (i + a) + b;
    ValueAppend(i, a);
    ValueAppend(i + a, b);
    ValueBound(b);
    Pow10Add(6, |b|);
    LongArithmetic(Value((i + a) + b), Value(i + a), Pow10(|b|), Value(b), MICROS);
  }

  lemma SixCount(a: string, b: string)
    requires AllDigits(a) && AllDigits(b) && |a| == 6
    ensures AllDigits(a + b) && Weighted(a + b, MICROS / 10) == Value(a)
  {
    SixDigits();
    WeightedIsValue(a + b, 6);
    assert First(a + b, 6) == a && Pow10(0) == 1;
  }

  /** With more than six fraction digits the remainder is cut toward zero. */
  lemma LongIsCut(i: string, f: string)
    requires AllDigits(i) && AllDigits(f) && |f| > 6
    ensures AllDigits(i + f)
    ensures Value(i) * MICROS + Weighted(f, MICROS / 10) == Truncated(i, f)
  {
    var a, b := f[..6], f[6..];
    assert f == a + b;
    CutAtSix(i, a, b);
    SixCount(a, b);
    ValueAppend(i, a);
    SixDigits();
  }

  lemma PriceOf(t: string, negative: bool, i: string, f: string, rest: string)
    requires AllDigits(i) && AllDigits(f) && IsDecimal(t, negative, i, f, rest)
    ensures Price(t) == Signed(negative, Value(i) * MICROS + Weighted(f, MICROS / 10))
  {
    if t == Text(negative, i, f) + rest && (rest == "" || !IsDigit(rest[0])) {
      TextParts(negative, i, f, rest);
    } else {
      WholeParts(negative, i, rest);
    }
    PriceOfParts(t, negative, i, f);
  }

  lemma PriceOfParts(t: string, negative: bool, i: string, f: string)
    requires AllDigits(i) && AllDigits(f)
    requires IsNegative(t) == negative && IntegerPart(t) == i && FractionPart(t) == f
    ensures Price(t) == Signed(negative, Value(i) * MICROS + Weighted(f, MICROS / 10))
  {
  }

  /**
   Every text, with or without a point and whatever follows the number, parses to the value of its
   digits times a million, truncated toward zero: the magnitude is the floor, and the sign is the
   text's.
   */
  lemma PriceIsTruncatedValue(t: string, negative: bool, i: string, f: string, rest: string)
    requires AllDigits(i) && AllDigits(f) && IsDecimal(t, negative, i, f, rest)
    ensures AllDigits(i + f)
    ensures Price(t) == Signed(negative, Truncated(i, f))
  {
    hide Price;
    PriceOf(t, negative, i, f, rest);
    if |f| <= 6 {
      ShortIsExact(i, f);
    } else {
      LongIsCut(i, f);
    }
  }

  /** Digits past the sixth have no effect. */
  lemma ExtraDigitsIgnored(negative: bool, i: string, f: string, more: string)
    requires AllDigits(i) && AllDigits(f) && AllDigits(more) && |f| >= 6
    ensures Price(Text(negative, i, f + more)) == Price(Text(negative, i, f))
  {
    hide Price;
    assert Text(negative, i, f) + "" == Text(negative, i, f);
    assert Text(negative, i, f + more) + "" == Text(negative, i, f + more);
    PriceOf(Text(negative, i, f), negative, i, f, "");
    PriceOf(Text(negative, i, f + more), negative, i, f + more, "");
    SixCount(f[..6], f[6..]);
    SixCount(f[..6], f[6..] + more);
    assert f == f[..6] + f[6..] && f + more == f[..6] + (f[6..] + more);
  }

  // ----- Rendering -----

  /** The last `k` digits of a number. */
  function Pad(n: nat, k: nat): (s: string)
    ensures |s| == k && AllDigits(s)
  {
    if k == 0 then "" else Pad(n / 10, k - 1) + [DigitChar(n % 10)]
  }

  lemma {:induction false} PadValue(n: nat, k: nat)
    requires n < Pow10(k)
    ensures Value(Pad(n, k)) == n
  {
    if k > 0 {
      PadValue(n / 10, k - 1);
      assert Pad(n, k)[..k - 1] == Pad(n / 10, k - 1);
    }
  }

  function Magnitude(n: int): nat {
    if n < 0 then 0 - n else n
  }

  /** A price in micros as text with six decimals. */
  function Render(n: int): string {
    Text(n < 0, Show(Magnitude(n) / MICROS), Pad(Magnitude(n) % MICROS, 6))
  }

  /** Parsing the six-decimal rendering of any micro-dollar amount gives it back, negatives included. */
  lemma RenderParses(n: int)
    ensures Price(Render(n)) == n
  {
    hide Price, Weighted, Value;
    var m := Magnitude(n);
    var i, f := Show(m / MICROS), Pad(m % MICROS, 6);
    assert Render(n) + "" == Render(n);
    PriceOf(Render(n), n < 0, i, f, "");
    PaddedWeight(m % MICROS);
  }

  lemma PaddedWeight(n: nat)
    requires n < MICROS
    ensures Weighted(Pad(n, 6), MICROS / 10) == n
  {
    SixDigits();
    PadValue(n, 6);
    WeightedIsValue(Pad(n, 6), 6);
    assert First(Pad(n, 6), 6) == Pad(n, 6) && Pow10(0) == 1;
  }
}
