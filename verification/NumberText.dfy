/** The text of a number: digits in a base, prefix, sign and padding. */
module NumberText {

  const UINT64_RANGE: nat := 0x1_0000_0000_0000_0000
  const SIZE_MAX: nat := 0xFFFF_FFFF_FFFF_FFFF

  datatype Sign = MinusOnly | Plus | Space

  /** The modifiers of a stream. */
  datatype Format = Format(base: nat, width: nat, fill: char, hexchar: char, prefix: bool, left: bool, sign: Sign)

  predicate Sensible(f: Format) { f.base in {2, 8, 10, 16} && (f.hexchar == 'a' || f.hexchar == 'A') }

  // ------------------------------------------------------------------ digits

  function Pow(b: nat, k: nat): nat { if k == 0 then 1 else b * Pow(b, k - 1) }

  lemma {:induction false} PowPositive(b: nat, k: nat)
    requires b > 0
    ensures Pow(b, k) > 0
    decreases k
  {
    if k > 0 { PowPositive(b, k - 1); }
  }

  function DigitChar(d: nat, hexchar: char): char
    requires d < 16 && (hexchar == 'a' || hexchar == 'A')
  {
    if d < 10 then ('0' as int + d) as char else (hexchar as int + d - 10) as char
  }

  /** How many digits a value has. */
  function Length(v: nat, base: nat): (n: nat)
    requires base >= 2
    ensures n >= 1
  {
    if v < base then 1
    else
      DivSmaller(v, base);
      1 + Length(v / base, base)
  }

  lemma DivSmaller(v: nat, b: nat)
    requires 2 <= b <= v
    ensures v / b < v
  {
    var c := v / b;
    assert v >= b * c;
    MulMono(c, 2, b);
  }

  lemma MulMono(q: nat, b: nat, c: nat)
    ensures c >= b ==> q * c >= q * b
  {
  }

  lemma LengthStep(v: nat, base: nat)
    requires base >= 2
    ensures v < base ==> Length(v, base) == 1 && Pow(base, 0) == 1
    ensures v >= base ==> v / base < v && Length(v, base) == 1 + Length(v / base, base)
  {
    if v >= base { DivSmaller(v, base); }
  }

  lemma PowStep(b: nat, k: nat)
    ensures Pow(b, k + 1) == b * Pow(b, k) && Pow(b, 0) == 1 && Pow(b, 1) == b
  {
    assert Pow(b, 1) == b * Pow(b, 0);
  }

  /** The length is the number of powers of the base that do not exceed the value. */
  lemma {:induction false} LengthBounds(v: nat, base: nat)
    requires base >= 2
    ensures v < Pow(base, Length(v, base)) && (Length(v, base) > 1 ==> Pow(base, Length(v, base) - 1) <= v)
    decreases v
  {
    hide Pow, Length;
    LengthStep(v, base);
    var n := Length(v, base);
    PowStep(base, n - 1);
    if v >= base {
      LengthBounds(v / base, base);
      DivBound(v, base, Pow(base, n - 1));
      if n > 2 {
        PowStep(base, n - 2);
        MulBound(v, base, Pow(base, n - 2));
      }
    }
  }

  lemma DivBound(v: nat, b: nat, q: nat)
    requires b > 0 && v / b < q
    ensures v < b * q
  {
    assert v / b + 1 <= q;
    assert b * (v / b + 1) <= b * q;
  }

  lemma MulBound(v: nat, b: nat, q: nat)
    requires b > 0 && q <= v / b
    ensures b * q <= v
  {
    assert b * q <= b * (v / b);
  }

  lemma {:induction false} PowMono(b: nat, j: nat, k: nat)
    requires b >= 2 && j <= k
    ensures Pow(b, j) <= Pow(b, k)
    decreases k
  {
    if j < k {
      PowMono(b, j, k - 1);
      PowPositive(b, k - 1);
      assert b * Pow(b, k - 1) >= Pow(b, k - 1);
    }
  }

  /** The bounds determine the length. */
  lemma LengthUnique(v: nat, base: nat, n: nat)
    requires base >= 2 && n >= 1 && v < Pow(base, n) && (n > 1 ==> Pow(base, n - 1) <= v)
    ensures n == Length(v, base)
  {
    LengthBounds(v, base);
    var m := Length(v, base);
    if m < n { PowMono(base, m, n - 1); }
    if n < m { PowMono(base, n, m - 1); }
  }

  lemma QuotientBound(v: nat, b: nat, q: nat)
    requires q > 0 && v < b * q
    ensures v / q < b
  {
    var c := v / q;
    assert v >= q * c;
    MulMono(q, b, c);
  }

  lemma TopDigit(v: nat, base: nat, k: nat)
    requires base >= 2 && k > 0 && v < Pow(base, k)
    ensures Pow(base, k - 1) > 0 && v / Pow(base, k - 1) < base && v % Pow(base, k - 1) < Pow(base, k - 1)
  {
    PowPositive(base, k - 1);
    QuotientBound(v, base, Pow(base, k - 1));
  }

  /** The first of `k` digits. */
  function Top(v: nat, base: nat, k: nat): (d: nat)
    requires base >= 2 && k > 0 && v < Pow(base, k)
    ensures d < base
  {
    TopDigit(v, base, k);
    v / Pow(base, k - 1)
  }

  /** What the other digits stand for. */
  function Rest(v: nat, base: nat, k: nat): (r: nat)
    requires base >= 2 && k > 0 && v < Pow(base, k)
    ensures r < Pow(base, k - 1)
  {
    TopDigit(v, base, k);
    v % Pow(base, k - 1)
  }

  lemma TopRest(v: nat, base: nat, k: nat)
    requires base >= 2 && k > 0 && v < Pow(base, k)
    ensures v == Top(v, base, k) * Pow(base, k - 1) + Rest(v, base, k)
    ensures Pow(base, k) == base * Pow(base, k - 1)
    ensures Top(v, base, k) == 0 <==> v < Pow(base, k - 1)
  {
    TopDigit(v, base, k);
    Split(v, Pow(base, k - 1));
  }

  lemma Split(v: nat, q: nat)
    requires q > 0
    ensures v == (v / q) * q + v % q
    ensures v / q == 0 <==> v < q
  {
  }

  /** The `k` lowest digits, highest first. */
  function DigitsFrom(v: nat, base: nat, k: nat, hexchar: char): (s: string)
    requires 2 <= base <= 16 && v < Pow(base, k) && (hexchar == 'a' || hexchar == 'A')
    ensures |s| == k
    decreases k
  {
    if k == 0 then ""
    else [DigitChar(Top(v, base, k), hexchar)] + DigitsFrom(Rest(v, base, k), base, k - 1, hexchar)
  }

  /** The digits of a value, without leading zeros. */
  function Digits(v: nat, base: nat, hexchar: char): (s: string)
    requires 2 <= base <= 16 && (hexchar == 'a' || hexchar == 'A')
    ensures |s| == Length(v, base)
  {
    LengthBounds(v, base);
    DigitsFrom(v, base, Length(v, base), hexchar)
  }

  // ------------------------------------------------------------------ the whole text

  function Repeat(c: char, n: nat): (s: string)
    ensures |s| == n
  {
    seq(n, _ => c)
  }

  /** What stands before the digits: sign or base prefix. */
  function Lead(v: nat, minus: bool, precision: nat, f: Format): string
    requires f.base >= 2
  {
    if f.base == 2 then (if f.prefix then "0b" else "")
    else if f.base == 8 then
      // zeros that fill up to the precision, or the digit 0, serve as the prefix
      (if f.prefix && v != 0 && !(precision != SIZE_MAX && Length(v, 8) < precision) then "0" else "")
    else if f.base == 16 then (if f.prefix then (if f.hexchar == 'A' then "0X" else "0x") else "")
    else if minus then "-" else if f.sign.Plus? then "+" else if f.sign.Space? then " " else ""
  }

  /** Zeros that fill the digits up to the precision. */
  function Leading(v: nat, precision: nat, f: Format): string
    requires f.base >= 2
  {
    if precision != SIZE_MAX && Length(v, f.base) < precision then Repeat('0', precision - Length(v, f.base)) else ""
  }

  /** How long the text is without padding. */
  function Natural(v: nat, minus: bool, precision: nat, f: Format): nat
    requires f.base >= 2
  {
    |Lead(v, minus, precision, f)| + |Leading(v, precision, f)| + Length(v, f.base)
  }

  function Padding(v: nat, minus: bool, precision: nat, f: Format): string
    requires f.base >= 2
  {
    var n := Natural(v, minus, precision, f);
    Repeat(f.fill, if f.width > n then f.width - n else 0)
  }

  /** Zeros as padding go behind a sign or prefix. */
  predicate PadInside(minus: bool, f: Format) { f.fill == '0' && (minus || f.sign.Plus? || f.base != 10) }

  /** The text of a number. */
  function Text(v: nat, minus: bool, precision: nat, f: Format): string
    requires Sensible(f)
  {
    if v == 0 && precision == 0 then Repeat(f.fill, f.width)
    else
      var pad := Padding(v, minus, precision, f);
      (if !f.left && !PadInside(minus, f) then pad else "")
      + Lead(v, minus, precision, f) + Leading(v, precision, f)
      + (if !f.left && PadInside(minus, f) then pad else "")
      + Digits(v, f.base, f.hexchar)
      + (if f.left then pad else "")
  }

  /** The text is as wide as asked for, or as long as it has to be. */
  lemma TextLength(v: nat, minus: bool, precision: nat, f: Format)
    requires Sensible(f)
    ensures |Text(v, minus, precision, f)| ==
              if v == 0 && precision == 0 then f.width
              else if f.width > Natural(v, minus, precision, f) then f.width else Natural(v, minus, precision, f)
  {
    hide Lead, Leading, Length, Digits;
  }

  // ------------------------------------------------------------------ reading digits back

  /** The value of a digit character, 99 for others. */
  function DigitValue(c: char): nat {
    if '0' <= c <= '9' then c as int - '0' as int
    else if 'a' <= c <= 'f' then c as int - 'a' as int + 10
    else if 'A' <= c <= 'F' then c as int - 'A' as int + 10
    else 99
  }

  /** The digit characters, in two rows. */
  lemma DigitTable(c: char, v: nat)
    ensures DigitValue(c) == v != 99 <==> v < 16 && (c == "0123456789abcdef"[v] || c == "0123456789ABCDEF"[v])
  {
    if v < 16 && (c == "0123456789abcdef"[v] || c == "0123456789ABCDEF"[v]) {
      assert v < 10 ==> c as int == '0' as int + v;
    }
  }

  lemma DigitBack(d: nat, hexchar: char)
    requires d < 16 && (hexchar == 'a' || hexchar == 'A')
    ensures DigitValue(DigitChar(d, hexchar)) == d
    ensures d == 0 <==> DigitChar(d, hexchar) == '0'
    ensures d < 10 ==> '0' <= DigitChar(d, hexchar) <= '9'
  {
  }

  /** Positional notation: the digits stand for the value. */
  function Value(n: nat, s: string, base: nat): nat
    decreases |s|
  {
    if s == "" then n else Value(n * base + DigitValue(s[0]), s[1..], base)
  }

  lemma DigitsStep(v: nat, base: nat, k: nat, hexchar: char)
    requires 2 <= base <= 16 && k > 0 && v < Pow(base, k) && (hexchar == 'a' || hexchar == 'A')
    ensures DigitsFrom(v, base, k, hexchar) != ""
    ensures DigitsFrom(v, base, k, hexchar)[0] == DigitChar(Top(v, base, k), hexchar)
    ensures DigitsFrom(v, base, k, hexchar)[1..] == DigitsFrom(Rest(v, base, k), base, k - 1, hexchar)
  {
  }

  /** A value moved up by `k` places. */
  function Scaled(n: nat, base: nat, k: nat): nat { n * Pow(base, k) }

  lemma ScaledStep(n: nat, base: nat, k: nat, v: nat)
    requires base >= 2 && k > 0 && v < Pow(base, k)
    ensures Scaled(n * base + Top(v, base, k), base, k - 1) + Rest(v, base, k) == Scaled(n, base, k) + v
  {
    TopRest(v, base, k);
    hide Top, Rest, Pow;
    Horner(n, base, Top(v, base, k), Pow(base, k - 1), Rest(v, base, k), Pow(base, k), v);
  }

  lemma ScaledZero(n: nat, base: nat, k: nat)
    ensures Scaled(0, base, k) == 0 && Scaled(n, base, 0) == n
  {
    assert Pow(base, 0) == 1;
  }

  lemma {:induction false} ValueOfDigits(n: nat, v: nat, base: nat, k: nat, hexchar: char)
    requires 2 <= base <= 16 && v < Pow(base, k) && (hexchar == 'a' || hexchar == 'A')
    ensures Value(n, DigitsFrom(v, base, k, hexchar), base) == Scaled(n, base, k) + v
    decreases k
  {
    hide Top, Rest, DigitChar, DigitValue, DigitsFrom, Pow, Value, Scaled;
    if k > 0 {
      DigitBack(Top(v, base, k), hexchar);
      DigitsStep(v, base, k, hexchar);
      ValueStep(n, DigitsFrom(v, base, k, hexchar), base);
      ValueOfDigits(n * base + Top(v, base, k), Rest(v, base, k), base, k - 1, hexchar);
      ScaledStep(n, base, k, v);
    } else {
      NoDigits(n, v, base, hexchar);
      ScaledZero(n, base, 0);
    }
  }

  lemma NoDigits(n: nat, v: nat, base: nat, hexchar: char)
    requires 2 <= base <= 16 && v < Pow(base, 0) && (hexchar == 'a' || hexchar == 'A')
    ensures v == 0 && Value(n, DigitsFrom(v, base, 0, hexchar), base) == n
  {
  }

  lemma ValueStep(n: nat, s: string, base: nat)
    requires s != ""
    ensures Value(n, s, base) == Value(n * base + DigitValue(s[0]), s[1..], base)
  {
  }

  lemma Horner(n: int, b: int, d: int, q: int, r: int, p: int, v: int)
    requires p == b * q && v == d * q + r
    ensures (n * b + d) * q + r == n * p + v
  {
    assert (n * b) * q == n * (b * q);
    assert (n * b + d) * q == (n * b) * q + d * q;
  }

  /** The digits read back as the value, and only a single digit may be 0 in front. */
  lemma DigitsMean(v: nat, base: nat, hexchar: char)
    requires 2 <= base <= 16 && (hexchar == 'a' || hexchar == 'A')
    ensures Value(0, Digits(v, base, hexchar), base) == v
    ensures Digits(v, base, hexchar)[0] == '0' <==> v == 0
    ensures v == 0 ==> Digits(v, base, hexchar) == "0"
    ensures DigitValue(Digits(v, base, hexchar)[0]) < base
  {
    hide Top, Rest, DigitChar, DigitValue, Scaled;
    ScaledZero(0, base, Length(v, base));
    var n := Length(v, base);
    LengthBounds(v, base);
    ValueOfDigits(0, v, base, n, hexchar);
    TopRest(v, base, n);
    DigitBack(Top(v, base, n), hexchar);
    assert Pow(base, 0) == 1;
    assert Digits(v, base, hexchar)[0] == DigitChar(Top(v, base, n), hexchar);
    assert v == 0 ==> n == 1;
  }
}
