/** What a printed number looks like: said of characters, without the functions that make it. */
module NumberShape {
  import opened NumberText

  predicate All(s: string, c: char) { forall k :: 0 <= k < |s| ==> s[k] == c }

  /** A digit of the base; letters are all in the case of `hexchar`. */
  predicate DigitIn(c: char, base: nat, hexchar: char) {
    && DigitValue(c) < base
    && ('0' <= c <= '9' || (hexchar == 'a' && 'a' <= c <= 'f') || (hexchar == 'A' && 'A' <= c <= 'F'))
  }

  /** The digits of a value, without leading zeros. */
  predicate Spells(d: string, v: nat, base: nat, hexchar: char) {
    && d != "" && (d[0] == '0' ==> |d| == 1) && Value(0, d, base) == v
    && forall k :: 0 <= k < |d| ==> DigitIn(d[k], base, hexchar)
  }

  /** A minus for negative numbers; for others a plus or a blank if that is asked for. */
  predicate SignShown(lead: string, minus: bool, sign: Sign) {
    && |lead| <= 1
    && ('-' in lead <==> minus)
    && ('+' in lead <==> !minus && sign.Plus?)
    && (' ' in lead <==> !minus && sign.Space?)
    && (lead != "" ==> lead[0] in "-+ ")
  }

  predicate Octal(s: string) { s != "" && s[0] == '0' }

  /** The sign in decimal, the prefix in other bases. In octal a single 0 in front of the digits
      is enough, whatever it is there for. */
  predicate LeadShown(lead: string, zeros: string, d: string, minus: bool, f: Format) {
    if f.base == 10 then SignShown(lead, minus, f.sign)
    else if !f.prefix then lead == ""
    else if f.base == 2 then lead == "0b"
    else if f.base == 16 then lead == (if f.hexchar == 'A' then "0X" else "0x")
    else |lead| <= 1 && Octal(lead + zeros + d) && (lead != "" ==> !Octal(zeros + d))
  }

  /** Where the padding stands: behind the digits, in front of everything, or, if it is zeros that
      are not to be taken for the number, between prefix and digits. */
  datatype Side = Behind | InFront | Inside

  function SideOf(minus: bool, f: Format): Side {
    if f.left then Behind
    else if f.fill == '0' && (f.base != 10 || minus || f.sign.Plus?) then Inside
    else InFront
  }

  datatype Pieces = Pieces(front: string, lead: string, zeros: string, inner: string, digits: string, back: string)

  function Whole(p: Pieces): string { p.front + p.lead + p.zeros + p.inner + p.digits + p.back }

  predicate PiecesOf(p: Pieces, v: nat, minus: bool, precision: nat, f: Format) {
    var n := |p.lead| + |p.zeros| + |p.digits|;
    && Spells(p.digits, v, f.base, f.hexchar) && LeadShown(p.lead, p.zeros, p.digits, minus, f)
    && All(p.zeros, '0')
    && |p.zeros| == (if precision != SIZE_MAX && |p.digits| < precision then precision - |p.digits| else 0)
    && All(p.front, f.fill) && All(p.inner, f.fill) && All(p.back, f.fill)
    && |p.front| + |p.inner| + |p.back| == (if f.width > n then f.width - n else 0)
    && (p.front != "" ==> SideOf(minus, f).InFront?)
    && (p.inner != "" ==> SideOf(minus, f).Inside?)
    && (p.back != "" ==> SideOf(minus, f).Behind?)
  }

  /** The text is that of a number. A zero printed with precision 0 is nothing but padding. */
  ghost predicate Shows(s: string, v: nat, minus: bool, precision: nat, f: Format) {
    if v == 0 && precision == 0 then |s| == f.width && All(s, f.fill)
    else exists p: Pieces :: PiecesOf(p, v, minus, precision, f) && s == Whole(p)
  }

  // ------------------------------------------------------------------ the text has the shape

  lemma DigitCharIn(d: nat, base: nat, hexchar: char)
    requires d < base <= 16 && (hexchar == 'a' || hexchar == 'A')
    ensures DigitIn(DigitChar(d, hexchar), base, hexchar)
  {
  }

  lemma {:induction false} DigitsIn(v: nat, base: nat, k: nat, hexchar: char)
    requires 2 <= base <= 16 && v < Pow(base, k) && (hexchar == 'a' || hexchar == 'A')
    ensures forall j :: 0 <= j < k ==> DigitIn(DigitsFrom(v, base, k, hexchar)[j], base, hexchar)
    decreases k
  {
    hide DigitsFrom, Pow, Top, Rest, DigitIn, DigitChar;
    if k > 0 {
      var s := DigitsFrom(v, base, k, hexchar);
      DigitsStep(v, base, k, hexchar);
      DigitCharIn(Top(v, base, k), base, hexchar);
      DigitsIn(Rest(v, base, k), base, k - 1, hexchar);
      assert forall j :: 0 < j < k ==> s[j] == s[1..][j - 1];
    }
  }

  lemma DigitsSpell(v: nat, base: nat, hexchar: char)
    requires 2 <= base <= 16 && (hexchar == 'a' || hexchar == 'A')
    ensures Spells(Digits(v, base, hexchar), v, base, hexchar)
  {
    hide DigitIn, Value;
    LengthBounds(v, base);
    DigitsIn(v, base, Length(v, base), hexchar);
    DigitsMean(v, base, hexchar);
  }

  lemma RepeatAll(c: char, n: nat)
    ensures All(Repeat(c, n), c) && |Repeat(c, n)| == n
  {
  }

  lemma LeadIs(v: nat, minus: bool, precision: nat, f: Format)
    requires Sensible(f)
    ensures LeadShown(Lead(v, minus, precision, f), Leading(v, precision, f), Digits(v, f.base, f.hexchar), minus, f)
  {
    hide Digits, Length;
    var lead, zeros, d := Lead(v, minus, precision, f), Leading(v, precision, f), Digits(v, f.base, f.hexchar);
    DigitsMean(v, f.base, f.hexchar);
  }

  /** The pieces that the text is made of. */
  function TextPieces(v: nat, minus: bool, precision: nat, f: Format): Pieces
    requires Sensible(f)
  {
    var pad := Padding(v, minus, precision, f);
    Pieces(if !f.left && !PadInside(minus, f) then pad else "", Lead(v, minus, precision, f),
           Leading(v, precision, f), if !f.left && PadInside(minus, f) then pad else "",
           Digits(v, f.base, f.hexchar), if f.left then pad else "")
  }

  /** What is printed is the text of the number. */
  lemma TextShows(v: nat, minus: bool, precision: nat, f: Format)
    requires Sensible(f)
    ensures Shows(Text(v, minus, precision, f), v, minus, precision, f)
  {
    hide Spells, LeadShown, Lead, Digits, Length;
    var p := TextPieces(v, minus, precision, f);
    DigitsSpell(v, f.base, f.hexchar);
    LeadIs(v, minus, precision, f);
    assert Text(v, minus, precision, f) == Whole(p) || (v == 0 && precision == 0);
    assert PiecesOf(p, v, minus, precision, f);
  }

  // ------------------------------------------------------------------ the shape determines the text

  /** The first digit weighs as much as its place. */
  lemma {:induction false} ValueShift(n: nat, s: string, base: nat)
    ensures Value(n, s, base) == n * Pow(base, |s|) + Value(0, s, base)
    decreases |s|
  {
    hide DigitValue, Pow, Value;
    if s == "" {
      NoValue(n, base);
    } else {
      var c, t, p := DigitValue(s[0]), s[1..], Pow(base, |s| - 1);
      ValueStep(n, s, base);
      ValueStep(0, s, base);
      ValueShift(n * base + c, t, base);
      ValueShift(c, t, base);
      PowStep(base, |s| - 1);
      Horner(n, base, c, p, 0, base * p, c * p);
    }
  }

  lemma NoValue(n: nat, base: nat)
    ensures Value(n, "", base) == n && n * Pow(base, 0) == n && Value(0, "", base) == 0
  {
  }

  lemma CharBack(c: char, base: nat, hexchar: char)
    requires base <= 16 && (hexchar == 'a' || hexchar == 'A') && DigitIn(c, base, hexchar)
    ensures DigitChar(DigitValue(c), hexchar) == c && DigitValue(c) < base && (DigitValue(c) == 0 <==> c == '0')
  {
  }

  lemma DivRest(c: nat, q: nat, r: nat)
    requires r < q
    ensures (c * q + r) / q == c && (c * q + r) % q == r
  {
    var x := c * q + r;
    assert x == (x / q) * q + x % q;
    if x / q < c { MulMono(q, x / q + 1, c); }
    if x / q > c { MulMono(q, c + 1, x / q); }
  }

  lemma BelowPower(c: nat, r: nat, base: nat, q: nat)
    requires c < base && r < q
    ensures c * q + r < base * q && (c > 0 ==> q <= c * q + r)
  {
    MulMono(q, c + 1, base);
    if c > 0 { MulMono(q, 1, c); }
  }

  /** Digits are the digits of what they stand for. */
  lemma {:induction false} DigitsUnique(d: string, base: nat, hexchar: char)
    requires 2 <= base <= 16 && (hexchar == 'a' || hexchar == 'A')
    requires forall k :: 0 <= k < |d| ==> DigitIn(d[k], base, hexchar)
    ensures Value(0, d, base) < Pow(base, |d|)
    ensures d != "" && d[0] != '0' ==> Pow(base, |d| - 1) <= Value(0, d, base)
    ensures d == DigitsFrom(Value(0, d, base), base, |d|, hexchar)
    decreases |d|
  {
    hide DigitIn, DigitChar, DigitValue, Pow, Value, Top, Rest, DigitsFrom;
    if d == "" {
      NoUnique(base, hexchar);
    } else {
      var c, t, q := DigitValue(d[0]), d[1..], Pow(base, |d| - 1);
      DigitsUnique(t, base, hexchar);
      CharBack(d[0], base, hexchar);
      FirstDigit(d, base, hexchar);
    }
  }

  lemma NoUnique(base: nat, hexchar: char)
    requires 2 <= base <= 16 && (hexchar == 'a' || hexchar == 'A')
    ensures Value(0, "", base) < Pow(base, 0) && DigitsFrom(Value(0, "", base), base, 0, hexchar) == ""
  {
  }

  lemma FirstDigit(d: string, base: nat, hexchar: char)
    requires 2 <= base <= 16 && (hexchar == 'a' || hexchar == 'A') && d != ""
    requires DigitValue(d[0]) < base && DigitChar(DigitValue(d[0]), hexchar) == d[0]
    requires DigitValue(d[0]) == 0 <==> d[0] == '0'
    requires Value(0, d[1..], base) < Pow(base, |d| - 1)
    requires d[1..] == DigitsFrom(Value(0, d[1..], base), base, |d| - 1, hexchar)
    ensures Value(0, d, base) < Pow(base, |d|)
    ensures d[0] != '0' ==> Pow(base, |d| - 1) <= Value(0, d, base)
    ensures d == DigitsFrom(Value(0, d, base), base, |d|, hexchar)
  {
    hide DigitChar, DigitValue, Pow, Value, DigitsFrom;
    var c, t, q := DigitValue(d[0]), d[1..], Pow(base, |d| - 1);
    var x, r := Value(0, d, base), Value(0, t, base);
    ValueStep(0, d, base);
    ValueShift(c, t, base);
    PowStep(base, |d| - 1);
    BelowPower(c, r, base, q);
    DivRest(c, q, r);
    DigitsStep(x, base, |d|, hexchar);
    assert d == [d[0]] + t;
  }

  lemma SpellUnique(d: string, v: nat, base: nat, hexchar: char)
    requires 2 <= base <= 16 && (hexchar == 'a' || hexchar == 'A') && Spells(d, v, base, hexchar)
    ensures d == Digits(v, base, hexchar)
  {
    hide DigitIn, Pow, Value, DigitsFrom, Length;
    DigitsUnique(d, base, hexchar);
    LengthUnique(v, base, |d|);
  }

  lemma AllSame(a: string, b: string, c: char)
    requires All(a, c) && All(b, c) && |a| == |b|
    ensures a == b
  {
  }

  lemma LeadUnique(a: string, b: string, zeros: string, d: string, minus: bool, f: Format)
    requires Sensible(f) && LeadShown(a, zeros, d, minus, f) && LeadShown(b, zeros, d, minus, f)
    ensures a == b
  {
    if f.base == 8 && f.prefix {
      assert a == "" ==> a + zeros + d == zeros + d;
      assert b == "" ==> b + zeros + d == zeros + d;
    }
  }

  lemma PiecesUnique(p: Pieces, q: Pieces, v: nat, minus: bool, precision: nat, f: Format)
    requires Sensible(f) && PiecesOf(p, v, minus, precision, f) && PiecesOf(q, v, minus, precision, f)
    ensures p == q
  {
    hide Spells, LeadShown, All, SideOf, Digits;
    SpellUnique(p.digits, v, f.base, f.hexchar);
    SpellUnique(q.digits, v, f.base, f.hexchar);
    AllSame(p.zeros, q.zeros, '0');
    LeadUnique(p.lead, q.lead, p.zeros, p.digits, minus, f);
    AllSame(p.front, q.front, f.fill);
    AllSame(p.inner, q.inner, f.fill);
    AllSame(p.back, q.back, f.fill);
  }

  /** The text of a number is the only one that has the shape. */
  lemma TextExact(s: string, v: nat, minus: bool, precision: nat, f: Format)
    requires Sensible(f)
    ensures Shows(s, v, minus, precision, f) <==> s == Text(v, minus, precision, f)
  {
    hide PiecesOf, Text, All;
    TextShows(v, minus, precision, f);
    var t := Text(v, minus, precision, f);
    if Shows(s, v, minus, precision, f) {
      if v == 0 && precision == 0 {
        AllSame(s, t, f.fill);
      } else {
        var p :| PiecesOf(p, v, minus, precision, f) && s == Whole(p);
        var q :| PiecesOf(q, v, minus, precision, f) && t == Whole(q);
        PiecesUnique(p, q, v, minus, precision, f);
      }
    }
  }

  lemma SignIs(lead: string, minus: bool, sign: Sign)
    requires SignShown(lead, minus, sign)
    ensures |lead| == if minus || !sign.MinusOnly? then 1 else 0
    ensures lead != "" ==> lead[0] == if minus then '-' else if sign.Plus? then '+' else ' '
  {
  }

  lemma DecimalDigits(d: string, v: nat, hexchar: char)
    requires Spells(d, v, 10, hexchar)
    ensures forall j :: 0 <= j < |d| ==> '0' <= d[j] <= '9'
  {
    hide Value;
  }

  lemma Unpadded(p: Pieces, v: nat, minus: bool, f: Format)
    requires f.base == 10 && f.width == 0 && PiecesOf(p, v, minus, SIZE_MAX, f)
    ensures Whole(p) == p.lead + p.digits && Spells(p.digits, v, 10, f.hexchar) && SignShown(p.lead, minus, f.sign)
  {
    hide Spells, SignShown, SideOf, All;
    assert p.front == "" && p.zeros == "" && p.inner == "" && p.back == "";
  }

  /** Decimal numbers without padding: the digits alone, or behind one character for the sign. */
  lemma PlainDecimal(s: string, v: nat, minus: bool, f: Format)
    requires f.base == 10 && f.width == 0 && Shows(s, v, minus, SIZE_MAX, f)
    ensures var k := if minus || !f.sign.MinusOnly? then 1 else 0;
            && |s| > k && Value(0, s[k..], 10) == v && (s[k] == '0' ==> |s| == k + 1)
            && (forall j :: k <= j < |s| ==> '0' <= s[j] <= '9')
            && (k == 1 ==> s[0] == if minus then '-' else if f.sign.Plus? then '+' else ' ')
  {
    hide Value, DigitIn, PiecesOf, SignShown;
    var p :| PiecesOf(p, v, minus, SIZE_MAX, f) && s == Whole(p);
    Unpadded(p, v, minus, f);
    DecimalDigits(p.digits, v, f.hexchar);
    SignIs(p.lead, minus, f.sign);
    assert s[|p.lead|..] == p.digits;
    assert forall j :: |p.lead| <= j < |s| ==> s[j] == p.digits[j - |p.lead|];
  }

  // ------------------------------------------------------------------ samples

  lemma Sample(p: Pieces, v: nat, minus: bool, precision: nat, f: Format)
    requires Sensible(f) && !(v == 0 && precision == 0) && PiecesOf(p, v, minus, precision, f)
    ensures Text(v, minus, precision, f) == Whole(p)
  {
    TextExact(Whole(p), v, minus, precision, f);
  }

  function Decimal(width: nat, fill: char, left: bool, sign: Sign): Format {
    Format(10, width, fill, 'a', false, left, sign)
  }

  function Prefixed(base: nat, width: nat, fill: char, hexchar: char): Format {
    Format(base, width, fill, hexchar, true, false, MinusOnly)
  }

  /** Signs and padding in decimal. */
  lemma DecimalSamples()
    ensures Text(42, false, SIZE_MAX, Decimal(0, ' ', false, Plus)) == "+42"
    ensures Text(42, false, SIZE_MAX, Decimal(5, ' ', false, Space)) == "   42"
    ensures Text(42, true, SIZE_MAX, Decimal(5, '0', false, MinusOnly)) == "-0042"
    ensures Text(42, true, SIZE_MAX, Decimal(5, ' ', true, Plus)) == "-42  "
  {
    hide Text, Digits;
    Sample(Pieces("", "+", "", "", "42", ""), 42, false, SIZE_MAX, Decimal(0, ' ', false, Plus));
    Sample(Pieces("  ", " ", "", "", "42", ""), 42, false, SIZE_MAX, Decimal(5, ' ', false, Space));
    Sample(Pieces("", "-", "", "00", "42", ""), 42, true, SIZE_MAX, Decimal(5, '0', false, MinusOnly));
    Sample(Pieces("", "-", "", "", "42", "  "), 42, true, SIZE_MAX, Decimal(5, ' ', true, Plus));
  }

  /** Prefix, precision and letter case in base 16. */
  lemma HexSamples()
    ensures Text(0xEDCB, false, SIZE_MAX, Prefixed(16, 0, ' ', 'A')) == "0XEDCB"
    ensures Text(1, false, 4, Prefixed(16, 4, '0', 'a')) == "0x0001"
  {
    hide Text, Digits;
    Sample(Pieces("", "0X", "", "", "EDCB", ""), 0xEDCB, false, SIZE_MAX, Prefixed(16, 0, ' ', 'A'));
    Sample(Pieces("", "0x", "000", "", "1", ""), 1, false, 4, Prefixed(16, 4, '0', 'a'));
  }

  /** The prefix in base 8. */
  lemma OctalSamples()
    ensures Text(1, false, SIZE_MAX, Prefixed(8, 4, '0', 'a')) == "0001"
    ensures Text(0, false, SIZE_MAX, Prefixed(8, 0, ' ', 'a')) == "0"
  {
    hide Text, Digits;
    Sample(Pieces("", "0", "", "00", "1", ""), 1, false, SIZE_MAX, Prefixed(8, 4, '0', 'a'));
    Sample(Pieces("", "", "", "", "0", ""), 0, false, SIZE_MAX, Prefixed(8, 0, ' ', 'a'));
  }
}
