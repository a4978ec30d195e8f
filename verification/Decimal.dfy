/** Decimal text: digits, std::from_chars and std::to_chars, and the fixed-point price parser. */
module Decimal {
  import opened Orders

  predicate IsDigit(c: char) {
    '0' <= c <= '9'
  }

  function DigitValue(c: char): (d: nat)
    requires IsDigit(c)
    ensures d < 10 && c as int == 48 + d
  {
    (c - '0') as int
  }

  function DigitChar(d: nat): (c: char)
    requires d < 10
    ensures IsDigit(c) && DigitValue(c) == d
  {
    '0' + d as char
  }

  ghost predicate AllDigits(s: string) {
    forall i :: 0 <= i < |s| ==> IsDigit(s[i])
  }

  /** The leading digits of a text. */
  function Digits(s: string): (d: string)
    ensures |d| <= |s| && d == s[..|d|] && AllDigits(d)
    ensures |d| < |s| ==> !IsDigit(s[|d|])
  {
    if s == "" || !IsDigit(s[0]) then "" else [s[0]] + Digits(s[1..])
  }

  /** The value of a digit string. */
  function Value(s: string): nat
    requires AllDigits(s)
  {
    if s == "" then 0 else 10 * Value(s[..|s| - 1]) + DigitValue(s[|s| - 1])
  }

  function Pow10(n: nat): (p: nat)
    ensures p > 0
  {
    if n == 0 then 1 else 10 * Pow10(n - 1)
  }

  lemma TimesTen(x: nat, y: nat)
    ensures x * (10 * y) == 10 * (x * y)
  {
  }

  lemma ValueSnoc(s: string, c: char)
    requires AllDigits(s) && IsDigit(c)
    ensures AllDigits(s + [c]) && Value(s + [c]) == 10 * Value(s) + DigitValue(c)
  {
    assert (s + [c])[..|s|] == s;
  }

  lemma ValueOfNothing()
    ensures Value("") == 0 && Pow10(0) == 1
  {
  }

  lemma Pow10Step(n: nat)
    ensures Pow10(n + 1) == 10 * Pow10(n)
  {
  }

  lemma {:induction false} ValueAppend(a: string, b: string)
    requires AllDigits(a) && AllDigits(b)
    ensures AllDigits(a + b) && Value(a + b) == Value(a) * Pow10(|b|) + Value(b)
  {
    hide Value, Pow10, DigitValue;
    if b == "" {
      assert a + b == a;
      ValueOfNothing();
    } else {
      var n := |b| - 1;
      ValueAppend(a, b[..n]);
      ValueSnoc(b[..n], b[n]);
      ValueSnoc(a + b[..n], b[n]);
      assert b == b[..n] + [b[n]] && a + b == (a + b[..n]) + [b[n]];
      Pow10Step(n);
      TimesTen(Value(a), Pow10(n));
    }
  }

  lemma {:induction false} ValueBound(s: string)
    requires AllDigits(s)
    ensures Value(s) < Pow10(|s|)
  {
    if s != "" {
      ValueBound(s[..|s| - 1]);
    }
  }

  lemma {:induction false} Pow10Add(a: nat, b: nat)
    ensures Pow10(a + b) == Pow10(a) * Pow10(b)
  {
    if b > 0 {
      Pow10Add(a, b - 1);
      TimesTen(Pow10(a), Pow10(b - 1));
    }
  }

  /** The digits of a number, as std::to_chars writes them. */
  function Show(n: nat): (s: string)
    ensures s != "" && AllDigits(s) && Value(s) == n
  {
    if n < 10 then
      assert Value([DigitChar(n)]) == n by { assert [DigitChar(n)][..0] == ""; }
      [DigitChar(n)]
    else
      var s := Show(n / 10) + [DigitChar(n % 10)];
      assert s[..|s| - 1] == Show(n / 10);
      s
  }

  /** Leading digits stop at the first other character. */
  lemma {:induction false} DigitsOf(d: string, rest: string)
    requires AllDigits(d) && (rest == "" || !IsDigit(rest[0]))
    ensures Digits(d + rest) == d
  {
    if d == "" {
      assert d + rest == rest;
    } else {
      assert (d + rest)[1..] == d[1..] + rest;
      DigitsOf(d[1..], rest);
    }
  }

  // ----- std::from_chars -----

  /** Signed 32-bit: no digits or a value out of range leaves the old value. */
  function ReadInt32(s: string, old_: int): int {
    var negative := s != "" && s[0] == '-';
    var d := Digits(if negative then s[1..] else s);
    if d == "" then old_
    else
      var v: int := if negative then 0 - Value(d) else Value(d);
      if -0x8000_0000 <= v < 0x8000_0000 then v else old_
  }

  /** Unsigned 64-bit: no sign is accepted. */
  function ReadUint64(s: string, old_: nat): nat {
    var d := Digits(s);
    if d == "" || Value(d) >= TWO_64 then old_ else Value(d)
  }

  function Sign(negative: bool): string {
    if negative then "-" else ""
  }

  /** A number at the start of a text is read, up to the first other character, if it fits; otherwise the old value stays. */
  lemma ReadsNumber(negative: bool, d: string, rest: string, old32: int, old64: nat)
    requires AllDigits(d) && d != "" && (rest == "" || !IsDigit(rest[0]))
    ensures var v: int := if negative then 0 - Value(d) else Value(d);
      ReadInt32(Sign(negative) + (d + rest), old32) == if -0x8000_0000 <= v < 0x8000_0000 then v else old32
    ensures ReadUint64(d + rest, old64) == if Value(d) < 0x1_0000_0000_0000_0000 then Value(d) else old64
  {
    DigitsOf(d, rest);
    var s := Sign(negative) + (d + rest);
    if negative {
      assert s[1..] == d + rest;
    } else {
      assert s == d + rest && s[0] == d[0];
    }
  }

  /** A text that does not start with a number leaves the old value; an unsigned number takes no sign. */
  lemma ReadsNothing(s: string, old32: int, old64: nat)
    ensures s == "" || !(IsDigit(s[0]) || (s[0] == '-' && |s| > 1 && IsDigit(s[1]))) ==> ReadInt32(s, old32) == old32
    ensures s == "" || !IsDigit(s[0]) ==> ReadUint64(s, old64) == old64
  {
  }

  /** A written number has no leading zeros. */
  lemma {:induction false} ShowIsShort(n: nat)
    ensures |Show(n)| > 1 ==> Show(n)[0] != '0'
  {
    if n >= 10 {
      ShowIsShort(n / 10);
      assert n < 100 ==> Show(n / 10) == [DigitChar(n / 10)];
      assert Show(n)[0] == Show(n / 10)[0];
      assert |Show(n / 10)| == 1 ==> Show(n / 10)[..0] == "";
    }
  }

  lemma ShowParses(n: nat, old32: int, old64: nat)
    ensures n < 0x8000_0000 ==> ReadInt32(Show(n), old32) == n
    ensures n < TWO_64 ==> ReadUint64(Show(n), old64) == n
  {
    DigitsOf(Show(n), "");
    assert Show(n) + "" == Show(n);
    assert IsDigit(Show(n)[0]);
  }

  // ----- Fixed-point prices -----

  const MICROS: nat := 1_000_000

  /** The weighted digits of a fraction, the first weighing `weight`. */
  function Weighted(f: string, weight: nat): nat
    requires AllDigits(f)
    decreases |f|
  {
    if f == "" || weight == 0 then 0 else DigitValue(f[0]) * weight + Weighted(f[1..], weight / 10)
  }

  lemma NoFraction(weight: nat)
    ensures Weighted("", weight) == 0
  {
  }

  /** What the parser reads of a price text: sign, integer digits, fraction digits. */
  function IsNegative(s: string): bool {
    s != "" && s[0] == '-'
  }

  function Unsigned(s: string): string {
    if IsNegative(s) then s[1..] else s
  }

  function IntegerPart(s: string): (d: string)
    ensures AllDigits(d)
  {
    Digits(Unsigned(s))
  }

  function FractionPart(s: string): (d: string)
    ensures AllDigits(d)
  {
    var rest := Unsigned(s)[|IntegerPart(s)|..];
    if rest != "" && rest[0] == '.' then Digits(rest[1..]) else ""
  }

  function Price(s: string): int {
    var v := Value(IntegerPart(s)) * MICROS + Weighted(FractionPart(s), MICROS / 10);
    if IsNegative(s) then -v else v
  }

  lemma ValueStep(s: string, i: nat)
    requires i < |s| && AllDigits(s[..i + 1])
    ensures AllDigits(s[..i]) && Value(s[..i + 1]) == 10 * Value(s[..i]) + DigitValue(s[i])
  {
    assert s[..i + 1][..i] == s[..i];
    assert forall j :: 0 <= j < i ==> s[..i][j] == s[..i + 1][j];
    assert s[..i + 1][i] == s[i];
  }

  /** The integer loop: the leading digits and their value. */
  method ParseInteger(u: string) returns (value: nat, ptr: nat)
    ensures ptr == |Digits(u)| && value == Value(Digits(u))
  {
    value, ptr := 0, 0;
    while ptr < |u| && '0' <= u[ptr] <= '9'
      invariant ptr <= |u| && AllDigits(u[..ptr]) && value == Value(u[..ptr])
    {
      ValueStep(u, ptr);
      value := value * 10 + DigitValue(u[ptr]);
      ptr := ptr + 1;
    }
    DigitsOf(u[..ptr], u[ptr..]);
    assert u[..ptr] + u[ptr..] == u;
  }

  ghost predicate FractionLeft(f: string, ptr: nat, weight: nat, value: nat, total: nat) {
    ptr <= |f| && value + Weighted(Digits(f[ptr..]), weight) == total
  }

  lemma FractionTurn(f: string, ptr: nat, weight: nat, value: nat, total: nat)
    requires ptr < |f| && IsDigit(f[ptr]) && weight > 0 && FractionLeft(f, ptr, weight, value, total)
    ensures FractionLeft(f, ptr + 1, weight / 10, value + DigitValue(f[ptr]) * weight, total)
  {
    WeightedStep(f[ptr..], weight);
    assert f[ptr..][1..] == f[ptr + 1..];
  }

  lemma FractionOver(f: string, ptr: nat, weight: nat, value: nat, total: nat)
    requires FractionLeft(f, ptr, weight, value, total)
    requires ptr == |f| || !IsDigit(f[ptr]) || weight == 0
    ensures value == total
  {
  }

  /** The fraction loop: at most six digits count, the rest are skipped. */
  method ParseFraction(f: string) returns (value: nat)
    ensures value == Weighted(Digits(f), MICROS / 10)
  {
    value := 0;
    var ptr := 0;
    var multiplier: nat := MICROS / 10;
    ghost var total := Weighted(Digits(f), multiplier);
    assert f[0..] == f;
    while ptr < |f| && '0' <= f[ptr] <= '9' && multiplier > 0
      invariant 0 <= ptr <= |f|
      invariant FractionLeft(f, ptr, multiplier, value, total)
      decreases |f| - ptr
    {
      FractionTurn(f, ptr, multiplier, value, total);
      value := value + DigitValue(f[ptr]) * multiplier;
      multiplier := multiplier / 10;
      ptr := ptr + 1;
    }
    FractionOver(f, ptr, multiplier, value, total);
    while ptr < |f| && '0' <= f[ptr] <= '9'
      decreases |f| - ptr
    {
      ptr := ptr + 1;
    }
  }

  lemma WeightedStep(f: string, weight: nat)
    requires f != "" && IsDigit(f[0]) && weight > 0
    ensures Weighted(Digits(f), weight) == DigitValue(f[0]) * weight + Weighted(Digits(f[1..]), weight / 10)
  {
    assert Digits(f)[1..] == Digits(f[1..]);
  }

  /** The price parser over one text. */
  method ParseFixedPointPrice(s: string) returns (price: int)
    ensures price == Price(s)
  {
    hide Value, Weighted;
    var ptr, negative := 0, false;
    if ptr < |s| && s[ptr] == '-' {
      negative := true;
      ptr := ptr + 1;
    }
    ghost var u := Unsigned(s);
    assert u == s[ptr..];
    var integerPart, n := ParseInteger(s[ptr..]);
    ptr := ptr + n;
    ghost var rest := u[n..];
    assert s[ptr..] == rest;
    var value := integerPart * MICROS;
    if ptr < |s| && s[ptr] == '.' {
      ptr := ptr + 1;
      assert s[ptr..] == rest[1..];
      var fraction := ParseFraction(s[ptr..]);
      assert FractionPart(s) == Digits(rest[1..]);
      value := value + fraction;
    } else {
      assert FractionPart(s) == "";
      NoFraction(MICROS / 10);
    }
    price := if negative then 0 - value else value;
  }
}
