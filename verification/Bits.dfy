/** Machine words as natural numbers: powers of two, bitwise operators, the
    trailing-zero count, and the shifts of a two-word bit vector. */
module Bits {

  const WORD_BITS: nat := 64
  const WORD: nat := 0x1_0000_0000_0000_0000

  type Word = x: nat | x < WORD

  function Pow2(n: nat): (r: nat)
    ensures r > 0
  {
    if n == 0 then 1 else 2 * Pow2(n - 1)
  }

  /** Bitwise or and exclusive or on arbitrary naturals, least significant bit first. */
  function Or(x: nat, y: nat): nat
    decreases x + y
  {
    if x == 0 then y else if y == 0 then x
    else (if x % 2 == 1 || y % 2 == 1 then 1 else 0) + 2 * Or(x / 2, y / 2)
  }

  function Xor(x: nat, y: nat): nat
    decreases x + y
  {
    if x == 0 then y else if y == 0 then x
    else (if x % 2 != y % 2 then 1 else 0) + 2 * Xor(x / 2, y / 2)
  }

  /** `ntz`: the number of trailing zero bits; its table lookup answers 0 for 0. */
  function Ntz(x: nat): nat {
    if x == 0 || x % 2 == 1 then 0 else 1 + Ntz(x / 2)
  }

  // ------------------------------------------------------------------ arithmetic

  lemma MulMono(a: int, b: int, c: int)
    requires c >= 0
    ensures a <= b ==> a * c <= b * c
  {
    assert b * c - a * c == (b - a) * c;
  }

  /** Quotient and remainder are unique. */
  lemma MulMod(q: int, d: int, r: int)
    requires 0 <= r < d
    ensures (q * d + r) / d == q && (q * d + r) % d == r
  {
    var x := q * d + r;
    var p := x / d;
    assert x == p * d + x % d;
    MulMono(p + 1, q, d);
    MulMono(q + 1, p, d);
  }

  function Div(x: nat, d: nat): (q: nat)
    requires d > 0
    ensures q <= x && x == q * d + x % d
  {
    MulMono(1, d, x / d);
    assert x == (x / d) * d + x % d;
    x / d
  }

  function Mod(x: nat, d: nat): (r: nat)
    requires d > 0
    ensures r < d
  {
    x % d
  }

  /** A quotient is below the factor that the dividend is below. */
  lemma DivLt(x: nat, c: nat, m: nat)
    requires m > 0 && x < c * m
    ensures x / m < c
  {
    MulMono(c, x / m, m);
    assert x == (x / m) * m + x % m;
  }

  lemma ModScale(x: nat, c: nat, m: nat)
    requires c > 0 && m > 0
    ensures c * m > 0
    ensures (x * c) % (c * m) == (x % m) * c
  {
    var q, r := x / m, x % m;
    assert x == q * m + r;
    assert x * c == q * (c * m) + r * c;
    MulMono(r + 1, m, c);
    assert (r + 1) * c == r * c + c;
    MulMod(q, c * m, r * c);
  }

  lemma {:induction false} Pow2Add(a: nat, b: nat)
    ensures Pow2(a + b) == Pow2(a) * Pow2(b)
  {
    if a > 0 {
      Pow2Add(a - 1, b);
      assert Pow2(a + b) == 2 * (Pow2(a - 1) * Pow2(b));
    }
  }

  lemma HalfScale(c: nat, g: nat)
    ensures g > 0 ==> c * Pow2(g) == 2 * (c * Pow2(g - 1))
    ensures g == 0 ==> c * Pow2(g) == c
    ensures c > 0 ==> c * Pow2(g) > 0
  {
  }

  lemma {:induction false} Pow2Mono(a: nat, b: nat)
    requires a <= b
    ensures Pow2(a) <= Pow2(b)
  {
    if a < b { Pow2Mono(a, b - 1); }
  }

  lemma Pow2Word()
    ensures Pow2(WORD_BITS) == WORD
  {
    Pow2Sixteen();
    hide Pow2;
    Pow2Add(16, 16);
    Pow2Add(32, 32);
  }

  lemma Pow2Sixteen()
    ensures Pow2(16) == 0x1_0000
  {
    assert Pow2(8) == 256;
  }

  // ------------------------------------------------------------------ or, xor

  /** Or-ing bits into a field of zero bits is addition. */
  lemma {:induction false} OrDisjoint(a: nat, b: nat, k: nat)
    requires b < Pow2(k)
    ensures Or(a * Pow2(k), b) == a * Pow2(k) + b
  {
    if k == 0 {
    } else {
      var h := a * Pow2(k - 1);
      assert a * Pow2(k) == 2 * h;
      OrDisjoint(a, b / 2, k - 1);
    }
  }

  lemma OrOne(x: nat)
    ensures Or(x, 1) == if x % 2 == 1 then x else x + 1
  {
    assert x > 0 ==> Or(x / 2, 0) == x / 2;
  }

  /** `x ^= 7` on a word ending in 100 puts 011 there instead. */
  lemma XorSeven(m: nat)
    ensures Xor(8 * m + 4, 7) == 8 * m + 3
  {
    assert Xor(2 * m + 1, 1) == 2 * Xor(m, 0);
    assert Xor(4 * m + 2, 3) == 1 + 2 * Xor(2 * m + 1, 1);
    assert Xor(8 * m + 4, 7) == 1 + 2 * Xor(4 * m + 2, 3);
  }

  // ------------------------------------------------------------------ trailing zeros

  lemma {:induction false} NtzShift(h: nat, m: nat)
    requires h > 0
    ensures h * Pow2(m) > 0 && Ntz(h * Pow2(m)) == m + Ntz(h)
  {
    hide Pow2;
    HalfScale(h, m);
    if m > 0 {
      HalfScale(h, m - 1);
      NtzShift(h, m - 1);
    }
  }

  // ------------------------------------------------------------------ two-word vectors

  /** `size_t p[2]`: word 0 holds the low bits. */
  datatype Vec = Vec(lo: Word, hi: Word)

  function Value(p: Vec): nat { p.lo + p.hi * WORD }

  function ShlWord(x: Word, n: nat): Word { (x * Pow2(n)) % WORD }
  function ShrWord(x: Word, n: nat): Word { Div(x, Pow2(n)) }

  function OrWord(x: Word, y: Word): Word { Pow2Word(); OrBound(x, y, WORD_BITS); Or(x, y) }

  lemma {:induction false} OrBound(x: nat, y: nat, m: nat)
    requires x < Pow2(m) && y < Pow2(m)
    ensures Or(x, y) < Pow2(m)
    decreases m
  {
    if x != 0 && y != 0 { OrBound(x / 2, y / 2, m - 1); }
  }

  /** The left shift of a two-word vector; `n == 64` would shift a word by its full width,
      which the language leaves undefined. */
  function Shl(p: Vec, n: nat): Vec
    requires 0 < n < 128 && n != 64
  {
    var q := if n >= 64 then Vec(0, p.lo) else p;
    var k := if n >= 64 then n - 64 else n;
    Vec(ShlWord(q.lo, k), OrWord(ShlWord(q.hi, k), ShrWord(q.lo, 64 - k)))
  }

  function Shr(p: Vec, n: nat): Vec
    requires 0 < n < 128 && n != 64
  {
    var q := if n >= 64 then Vec(p.hi, 0) else p;
    var k := if n >= 64 then n - 64 else n;
    Vec(OrWord(ShrWord(q.lo, k), ShlWord(q.hi, 64 - k)), ShrWord(q.hi, k))
  }

  /** Shifting by `c` within a word of size `c * m` splits the word at `m`. */
  lemma SplitAt(x: nat, c: nat, m: nat)
    requires c > 0 && m > 0 && x < c * m
    ensures (x * c) % (c * m) == (x % m) * c
    ensures x / m < c
    ensures x * c == (x % m) * c + (x / m) * (c * m)
  {
    ModScale(x, c, m);
    DivLt(x, c, m);
    var q, r := x / m, x % m;
    assert x == q * m + r;
  }

  lemma SplitWord(x: Word, k: nat)
    requires 0 < k < 64
    ensures Pow2(k) * Pow2(64 - k) == WORD
    ensures ShlWord(x, k) == Mod(x, Pow2(64 - k)) * Pow2(k)
    ensures ShrWord(x, 64 - k) < Pow2(k)
    ensures x * Pow2(k) == ShlWord(x, k) + ShrWord(x, 64 - k) * WORD
  {
    Pow2Word();
    Pow2Add(k, 64 - k);
    SplitAt(x, Pow2(k), Pow2(64 - k));
  }

  /** Shifting left multiplies by a power of two as long as the product fits in 128 bits. */
  lemma ShlValue(p: Vec, n: nat)
    requires 0 < n < 128 && n != 64
    requires Value(p) * Pow2(n) < WORD * WORD
    ensures Value(Shl(p, n)) == Value(p) * Pow2(n)
  {
    if n >= 64 {
      var k := n - 64;
      Pow2Word();
      Pow2Add(64, k);
      HighIsZero(p.lo, p.hi, WORD, Pow2(k));
      assert Value(Vec(0, p.lo)) == p.lo * WORD;
      ShlSmall(Vec(0, p.lo), k);
    } else {
      ShlSmall(p, n);
    }
  }

  lemma HighIsZero(lo: nat, hi: nat, w: nat, c: nat)
    requires c > 0 && w > 0 && (lo + hi * w) * (w * c) < w * w
    ensures hi == 0 && (lo * w) * c == lo * (w * c)
  {
    MulMono(1, hi, w);
    MulMono(w, lo + hi * w, w * c);
    MulMono(1, c, w * w);
    assert w * (w * c) == c * (w * w);
    assert hi == 0;
  }

  lemma TopDigit(lo: nat, hi: nat, w: nat, c: nat, q: nat, r: nat)
    requires w > 0 && (lo + hi * w) * c < w * w && hi * c == r + q * w
    ensures q == 0
    ensures (lo + hi * w) * c == lo * c + r * w
  {
    assert (lo + hi * w) * c == lo * c + (hi * c) * w;
    NoOverflow(lo * c, r, q, w);
  }

  lemma NoOverflow(x: nat, r: nat, q: nat, w: nat)
    requires w > 0 && x + (r + q * w) * w < w * w
    ensures q == 0
  {
    assert (r + q * w) * w == r * w + q * (w * w);
    MulMono(1, q, w * w);
  }

  /** The word operations of a short left shift: no carry is lost in the or. */
  lemma ShlWords(q: Vec, k: nat)
    requires 0 < k < 64
    ensures Shl(q, k).lo == ShlWord(q.lo, k)
    ensures Shl(q, k).hi == ShlWord(q.hi, k) + ShrWord(q.lo, 64 - k)
  {
    SplitWord(q.lo, k);
    SplitWord(q.hi, k);
    OrDisjoint(Mod(q.hi, Pow2(64 - k)), ShrWord(q.lo, 64 - k), k);
  }

  lemma ShlSmall(q: Vec, k: nat)
    requires 0 < k < 64 && Value(q) * Pow2(k) < WORD * WORD
    ensures Value(Shl(q, k)) == Value(q) * Pow2(k)
  {
    SplitWord(q.lo, k);
    SplitWord(q.hi, k);
    TopDigit(q.lo, q.hi, WORD, Pow2(k), ShrWord(q.hi, 64 - k), ShlWord(q.hi, k));
    ShlWords(q, k);
  }

  /** Shifting right divides by a power of two. */
  lemma ShrValue(p: Vec, n: nat)
    requires 0 < n < 128 && n != 64
    ensures Value(Shr(p, n)) == Value(p) / Pow2(n)
  {
    hide Pow2, Or;
    if n < 64 {
      ShrSmall(p, n);
    } else {
      var k := n - 64;
      Pow2Word();
      Pow2Add(64, k);
      ShrSmall(Vec(p.hi, 0), k);
      DivDiv(p.lo, p.hi, WORD, Pow2(k));
    }
  }

  /** Dropping a low digit first does not change a quotient. */
  lemma DivDiv(lo: nat, hi: nat, w: nat, c: nat)
    requires lo < w && c > 0
    ensures w * c > 0 && (lo + hi * w) / (w * c) == hi / c
  {
    var q, r := hi / c, hi % c;
    assert hi == q * c + r;
    assert hi * w == q * (w * c) + r * w;
    MulMono(r + 1, c, w);
    assert (r + 1) * w == r * w + w;
    assert c * w == w * c;
    MulMod(q, w * c, r * w + lo);
  }

  /** Dividing a two-digit number in base `c * m` by `c`. */
  lemma DivTwoDigits(lo: nat, hi: nat, c: nat, m: nat)
    requires c > 0 && m > 0
    ensures (lo + hi * (c * m)) / c == ((hi % c) * m + lo / c) + (hi / c) * (c * m)
  {
    var q, r := lo / c, lo % c;
    var hq, hr := hi / c, hi % c;
    assert lo == q * c + r && hi == hq * c + hr;
    var d := hr * m + q + hq * (c * m);
    assert d * c == hr * m * c + q * c + hq * (c * m) * c;
    assert hi * (c * m) == hq * (c * m) * c + hr * m * c by {
      assert hi * (c * m) == (hq * c) * (c * m) + hr * (c * m);
    }
    MulMod(d, c, r);
  }

  lemma ShrWords(p: Vec, k: nat)
    requires 0 < k < 64
    ensures Shr(p, k).lo == Mod(p.hi, Pow2(k)) * Pow2(64 - k) + ShrWord(p.lo, k)
    ensures Shr(p, k).hi == ShrWord(p.hi, k)
  {
    SplitWord(p.lo, 64 - k);
    SplitWord(p.hi, 64 - k);
    OrComm(ShrWord(p.lo, k), ShlWord(p.hi, 64 - k));
    OrDisjoint(Mod(p.hi, Pow2(k)), ShrWord(p.lo, k), 64 - k);
  }

  lemma ShrSmall(p: Vec, k: nat)
    requires 0 < k < 64
    ensures Value(Shr(p, k)) == Value(p) / Pow2(k)
  {
    ShrWords(p, k);
    Pow2Word();
    Pow2Add(k, 64 - k);
    DivTwoDigits(p.lo, p.hi, Pow2(k), Pow2(64 - k));
  }

  lemma {:induction false} OrComm(x: nat, y: nat)
    ensures Or(x, y) == Or(y, x)
    decreases x + y
  {
    if x != 0 && y != 0 { OrComm(x / 2, y / 2); }
  }

  // ------------------------------------------------------------------ the code word p[2]

  lemma {:induction false} XorBound(x: nat, y: nat, m: nat)
    requires x < Pow2(m) && y < Pow2(m)
    ensures Xor(x, y) < Pow2(m)
    decreases m
  {
    if x != 0 && y != 0 { XorBound(x / 2, y / 2, m - 1); }
  }

  /** `p[0] |= 1` */
  function SetLow(p: Vec): Vec { Vec(OrWord(p.lo, 1), p.hi) }

  /** `p[0] ^= 7` */
  function FlipSeven(p: Vec): Vec {
    Pow2Word();
    XorBound(p.lo, 7, WORD_BITS);
    Vec(Xor(p.lo, 7), p.hi)
  }

  lemma SetLowValue(p: Vec)
    requires Value(p) % 2 == 0
    ensures Value(SetLow(p)) == Value(p) + 1
  {
    OrOne(p.lo);
  }

  lemma FlipSevenValue(p: Vec)
    requires Value(p) % 8 == 4
    ensures Value(FlipSeven(p)) == Value(p) - 1
  {
    hide Xor;
    assert p.lo % 8 == 4;
    XorSeven(p.lo / 8);
  }

  /** `pntz`: trailing zeros of the vector without its bit 0, searched word by word. */
  function Pntz(p: Vec): nat {
    var r := Ntz((p.lo + WORD - 1) % WORD);
    if r != 0 then r
    else
      var q := WORD_BITS + Ntz(p.hi);
      if q != WORD_BITS then q else 0
  }

  lemma NtzParity(x: nat)
    ensures Ntz(x) == 0 <==> x == 0 || x % 2 == 1
  {
  }

  lemma NtzStep(x: nat, h: nat)
    requires x > 0
    ensures Ntz(x + 2 * h) == if x % 2 == 1 then 0 else 1 + Ntz(x / 2 + h)
    ensures Ntz(x) == if x % 2 == 1 then 0 else 1 + Ntz(x / 2)
  {
  }

  lemma {:induction false} NtzLow(x: nat, h: nat, m: nat)
    requires 0 < x < Pow2(m)
    ensures Ntz(x + h * Pow2(m)) == Ntz(x)
    decreases m
  {
    hide Ntz;
    assert m > 0 && Pow2(m) == 2 * Pow2(m - 1);
    hide Pow2;
    HalfScale(h, m);
    NtzStep(x, h * Pow2(m - 1));
    if x % 2 == 0 {
      NtzLow(x / 2, h, m - 1);
    }
  }

  lemma {:induction false} NtzBound(x: nat, m: nat)
    requires 0 < x < Pow2(m)
    ensures Ntz(x) < m
  {
    if x % 2 == 0 { NtzBound(x / 2, m - 1); }
  }

  /** `pntz` finds the next tree exactly unless that tree is 64 orders away: then the
      trailing zeros of the second word are none, and the answer is 0 instead of 64. */
  lemma PntzExact(p: Vec)
    requires Value(p) % 2 == 1 && Value(p) > 1
    ensures Pntz(p) == (if Ntz(Value(p) - 1) == 64 then 0 else Ntz(Value(p) - 1))
    ensures Pntz(p) == Ntz(Value(p) - 1) <==> !(p.lo == 1 && p.hi % 2 == 1)
  {
    hide Pow2, Ntz;
    Pow2Word();
    NtzParity(p.lo - 1);
    NtzParity(p.hi);
    if p.lo > 1 {
      NtzLow(p.lo - 1, p.hi, WORD_BITS);
      NtzBound(p.lo - 1, WORD_BITS);
    } else {
      NtzShift(p.hi, WORD_BITS);
    }
  }
}
