/** Which texts are numbers, and which: said of characters, without a parser. */
module NumberSyntax {
  import opened NumberText

  const LLONG_MAX: nat := 0x7FFF_FFFF_FFFF_FFFF

  predicate Spacer(c: char) { c == ' ' || c == ',' || c == '\'' }

  /** A digit character may stand for a value as large as the base. */
  predicate DigitOf(c: char, base: nat) { DigitValue(c) != 99 && DigitValue(c) <= base }

  /** The text without its spacers. */
  function Body(s: string): string
    decreases |s|
  {
    if s == "" then "" else (if Spacer(s[0]) then "" else [s[0]]) + Body(s[1..])
  }

  /** All spacers are the same character. */
  predicate OneSpacer(s: string) {
    forall i, j :: 0 <= i < |s| && 0 <= j < |s| && Spacer(s[i]) && Spacer(s[j]) ==> s[i] == s[j]
  }

  predicate AllDigits(s: string, base: nat) { forall i :: 0 <= i < |s| && !Spacer(s[i]) ==> DigitOf(s[i], base) }

  /** What a 64-bit word holds after the first `k` digits. */
  function Held(d: string, base: nat, k: nat): nat
    requires k <= |d|
  {
    Value(0, d[..k], base) % UINT64_RANGE
  }

  /** The 64-bit value never decreases from one digit to the next. */
  predicate NeverDrops(d: string, base: nat) { forall k: nat :: k < |d| ==> Held(d, base, k) <= Held(d, base, k + 1) }

  predicate WellFormed(s: string, base: nat) { OneSpacer(s) && AllDigits(s, base) && NeverDrops(Body(s), base) }

  /** Grouped digits stand for a number. */
  predicate Denotes(s: string, base: nat, n: nat) {
    WellFormed(s, base) && n == Held(Body(s), base, |Body(s)|)
  }

  predicate Blank(s: string) { forall i :: 0 <= i < |s| ==> s[i] == ' ' }

  /** The text before `p` is blanks, with one '+' among them if `plus`; behind it none of these follows. */
  predicate Front(s: string, p: nat, plus: int) {
    && p <= |s| && (p < |s| ==> s[p] != ' ')
    && if plus < 0 then Blank(s[..p]) && (p < |s| ==> s[p] != '+')
       else plus < p && Blank(s[..plus]) && s[plus] == '+' && Blank(s[plus + 1..p])
  }

  /** What the first characters say about the base, and how many of them are a prefix. */
  predicate Announces(b: string, base: nat, skip: nat) {
    if |b| >= 2 && b[0] == '0' then
      || (b[1] in "xX" && base == 16 && skip == 2)
      || (b[1] in "bB" && base == 2 && skip == 2)
      || ('1' <= b[1] <= '7' && base == 8 && skip == 1)
    else base == 10 && skip == 0
  }

  ghost predicate UnsignedAt(s: string, p: nat, plus: int, base: nat, skip: nat, n: nat) {
    Front(s, p, plus) && Announces(s[p..], base, skip) && p + skip <= |s| && Denotes(s[p + skip..], base, n)
  }

  /** The text is an unsigned number. */
  ghost predicate IsUnsigned(s: string, n: nat) {
    exists p: nat, plus: int, base: nat, skip: nat :: UnsignedAt(s, p, plus, base, skip, n)
  }

  /** The blanks in front end at `q`, with a sign, a digit, or the end. */
  predicate Signed(s: string, q: nat) {
    q <= |s| && Blank(s[..q]) && (q < |s| ==> s[q] == '-' || s[q] == '+' || '0' <= s[q] <= '9')
  }

  predicate SignAt(s: string, q: nat, c: char) { q < |s| && s[q] == c }

  /** What follows the sign at `q`, or begins there. */
  function AfterSign(s: string, q: nat): string
    requires q <= |s|
  {
    if SignAt(s, q, '-') || SignAt(s, q, '+') then s[q + 1..] else s[q..]
  }

  ghost predicate SignedAt(s: string, q: nat, v: nat, i: int) {
    && Signed(s, q) && IsUnsigned(AfterSign(s, q), v)
    && if SignAt(s, q, '-') then i == 0 - v as int && v <= LLONG_MAX + 1 else i == v && v <= LLONG_MAX
  }

  /** The text is a signed number in the range of 64 bits. */
  ghost predicate IsSigned(s: string, i: int) { exists q: nat, v: nat :: SignedAt(s, q, v, i) }

  // ------------------------------------------------------------------ one character more

  lemma {:induction false} BodyAppend(a: string, b: string)
    ensures Body(a + b) == Body(a) + Body(b)
    decreases |a|
  {
    if a == "" {
      assert a + b == b;
    } else {
      assert (a + b)[0] == a[0] && (a + b)[1..] == a[1..] + b;
      BodyAppend(a[1..], b);
    }
  }

  lemma {:induction false} ValueAppend(n: nat, a: string, b: string, base: nat)
    ensures Value(n, a + b, base) == Value(Value(n, a, base), b, base)
    decreases |a|
  {
    hide DigitValue;
    if a == "" {
      assert a + b == b;
    } else {
      assert (a + b)[0] == a[0] && (a + b)[1..] == a[1..] + b;
      ValueAppend(n * base + DigitValue(a[0]), a[1..], b, base);
    }
  }

  lemma HeldNext(d: string, c: char, base: nat)
    ensures Held(d + [c], base, |d| + 1) == (Held(d, base, |d|) * base + DigitValue(c)) % UINT64_RANGE
    ensures forall k: nat :: k <= |d| ==> Held(d + [c], base, k) == Held(d, base, k)
  {
    hide DigitValue;
    assert (d + [c])[..|d| + 1] == d + [c] && d[..|d|] == d;
    ValueAppend(0, d, [c], base);
    assert [c][1..] == "";
    assert Value(Value(0, d, base), [c], base) == Value(0, d, base) * base + DigitValue(c);
    ModStep(Value(0, d, base), base, DigitValue(c));
    forall k: nat | k <= |d|
      ensures Held(d + [c], base, k) == Held(d, base, k)
    {
      assert (d + [c])[..k] == d[..k];
    }
  }

  lemma ModStep(x: nat, base: nat, v: nat)
    ensures (x * base + v) % UINT64_RANGE == ((x % UINT64_RANGE) * base + v) % UINT64_RANGE
  {
    var q := x / UINT64_RANGE;
    assert x == q * UINT64_RANGE + x % UINT64_RANGE;
    ModMore((x % UINT64_RANGE) * base + v, q * base);
    Regroup(x, q, base, v);
  }

  lemma Regroup(x: nat, q: nat, base: nat, v: nat)
    requires x == q * UINT64_RANGE + x % UINT64_RANGE
    ensures x * base + v == (x % UINT64_RANGE) * base + v + (q * base) * UINT64_RANGE
  {
    assert x * base == (q * UINT64_RANGE) * base + (x % UINT64_RANGE) * base;
    assert (q * UINT64_RANGE) * base == (q * base) * UINT64_RANGE;
  }

  lemma {:induction false} ModMore(r: nat, q: nat)
    ensures (r + q * UINT64_RANGE) % UINT64_RANGE == r % UINT64_RANGE
  {
    if q > 0 {
      ModMore(r, q - 1);
      assert r + q * UINT64_RANGE == (r + (q - 1) * UINT64_RANGE) + UINT64_RANGE;
    }
  }
}
