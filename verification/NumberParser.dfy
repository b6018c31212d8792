/** Reading integers back from text, and what the parser makes of printed numbers. */
module NumberParser {
  import opened NumberText
  import opened NumberSyntax

  datatype Option<T> = None | Some(value: T)

  // ------------------------------------------------------------------ the parser as functions

  function Skip(s: string): (r: string)
    ensures |r| <= |s|
  {
    if s != "" && s[0] == ' ' then Skip(s[1..]) else s
  }

  /** The digits after the prefix. All spacers must be the same character; a digit may be as
      large as the base, and sums wrap at 64 bits. */
  function ParseDigits(s: string, base: nat, n: nat, spacer: Option<char>): Option<nat>
    decreases |s|
  {
    if s == "" then Some(n)
    else if Spacer(s[0]) then
      if spacer.Some? && spacer.value != s[0] then None else ParseDigits(s[1..], base, n, Some(s[0]))
    else
      var v := DigitValue(s[0]);
      var next := (n * base + v) % UINT64_RANGE;
      if v == 99 || v > base || next < n then None else ParseDigits(s[1..], base, next, spacer)
  }

  /** The base that a prefix announces, and how long the prefix is. */
  function Announced(s: string): Option<(nat, nat)> {
    if |s| >= 2 && s[0] == '0' then
      if s[1] == 'x' || s[1] == 'X' then Some((16, 2))
      else if s[1] == 'b' || s[1] == 'B' then Some((2, 2))
      else if '1' <= s[1] <= '7' then Some((8, 1))
      else None
    else Some((10, 0))
  }

  function AfterPlus(s: string): string {
    var a := Skip(s);
    if a != "" && a[0] == '+' then Skip(a[1..]) else a
  }

  function ParseUnsigned(s: string): Option<nat> {
    var b := AfterPlus(s);
    match Announced(b)
    case None => None
    case Some((base, skip)) => if skip <= |b| then ParseDigits(b[skip..], base, 0, None) else None
  }

  /** The sign of a text and what follows it. */
  function SignOf(s: string): Option<(bool, string)>
    decreases |s|
  {
    if s == "" then Some((false, ""))
    else if s[0] == '-' then Some((true, s[1..]))
    else if s[0] == '+' then Some((false, s[1..]))
    else if '0' <= s[0] <= '9' then Some((false, s))
    else if s[0] == ' ' then SignOf(s[1..])
    else None
  }

  function ParseSigned(s: string): Option<int> {
    match SignOf(s)
    case None => None
    case Some((minus, rest)) =>
      match ParseUnsigned(rest)
      case None => None
      case Some(v) =>
        if minus then (if v <= LLONG_MAX + 1 then Some(0 - v as int) else None)
        else if v <= LLONG_MAX then Some(v) else None
  }

  // ------------------------------------------------------------------ what is accepted

  /** The spacer of the text read so far. */
  predicate Seen(p: string, spacer: Option<char>) {
    match spacer
    case None => forall i :: 0 <= i < |p| ==> !Spacer(p[i])
    case Some(c) => Spacer(c) && c in p
  }

  lemma HeldPrefix(d: string, e: string, base: nat, k: nat)
    requires k <= |d|
    ensures Held(d + e, base, k) == Held(d, base, k)
  {
    assert (d + e)[..k] == d[..k];
  }

  /** A further spacer. */
  lemma SpacerNext(p: string, c: char, base: nat, spacer: Option<char>)
    requires WellFormed(p, base) && Seen(p, spacer) && Spacer(c) && (spacer.None? || spacer.value == c)
    ensures WellFormed(p + [c], base) && Seen(p + [c], Some(c)) && Body(p + [c]) == Body(p)
  {
    hide NeverDrops, DigitOf;
    BodyAppend(p, [c]);
    assert Body([c]) == Body([c][1..]) == "";
    assert Body(p) + "" == Body(p);
    assert (p + [c])[|p|] == c;
  }

  lemma SpacerBad(p: string, s: string, base: nat, c: char, n: nat)
    requires s != "" && Spacer(s[0]) && Spacer(c) && c in p && c != s[0]
    ensures !Denotes(p + s, base, n)
  {
    hide NeverDrops, AllDigits, Held;
    var i :| 0 <= i < |p| && p[i] == c;
    assert (p + s)[i] == c && (p + s)[|p|] == s[0];
  }

  /** A further digit. */
  lemma DigitNext(p: string, c: char, base: nat, spacer: Option<char>)
    requires WellFormed(p, base) && Seen(p, spacer) && !Spacer(c) && DigitOf(c, base)
    requires var n := Held(Body(p), base, |Body(p)|); n <= (n * base + DigitValue(c)) % UINT64_RANGE
    ensures WellFormed(p + [c], base) && Seen(p + [c], spacer) && Body(p + [c]) == Body(p) + [c]
    ensures Held(Body(p) + [c], base, |Body(p)| + 1) ==
              (Held(Body(p), base, |Body(p)|) * base + DigitValue(c)) % UINT64_RANGE
  {
    hide DigitOf, DigitValue, Held;
    BodyAppend(p, [c]);
    assert Body([c]) == [c] + Body([c][1..]) == [c];
    HeldNext(Body(p), c, base);
  }

  lemma Dropped(d: string, c: char, e: string, base: nat)
    requires (Held(d, base, |d|) * base + DigitValue(c)) % UINT64_RANGE < Held(d, base, |d|)
    ensures !NeverDrops((d + [c]) + e, base)
  {
    hide DigitValue, Held;
    HeldNext(d, c, base);
    HeldPrefix(d + [c], e, base, |d|);
    HeldPrefix(d + [c], e, base, |d| + 1);
    assert Held((d + [c]) + e, base, |d| + 1) < Held((d + [c]) + e, base, |d|);
  }

  lemma DigitBad(p: string, s: string, base: nat, n: nat)
    requires s != "" && !Spacer(s[0]) && !DigitOf(s[0], base)
    ensures !Denotes(p + s, base, n)
  {
    hide DigitOf, Held, NeverDrops, OneSpacer;
    assert (p + s)[|p|] == s[0];
  }

  lemma BodyDigit(p: string, s: string)
    requires s != "" && !Spacer(s[0])
    ensures Body(p + s) == (Body(p) + [s[0]]) + Body(s[1..])
  {
    BodyAppend(p, s);
  }

  lemma DropBad(p: string, s: string, base: nat, n: nat)
    requires s != "" && !Spacer(s[0])
    requires var m := Held(Body(p), base, |Body(p)|); (m * base + DigitValue(s[0])) % UINT64_RANGE < m
    ensures !Denotes(p + s, base, n)
  {
    hide DigitValue, Held, NeverDrops, Body, OneSpacer, AllDigits;
    BodyDigit(p, s);
    Dropped(Body(p), s[0], Body(s[1..]), base);
  }

  /** The digit parser goes on exactly as long as the text stays well-formed. */
  lemma {:induction false} DigitsExactFrom(p: string, s: string, base: nat, m: nat, spacer: Option<char>, n: nat)
    requires WellFormed(p, base) && Seen(p, spacer) && m == Held(Body(p), base, |Body(p)|)
    ensures ParseDigits(s, base, m, spacer) == Some(n) <==> Denotes(p + s, base, n)
    decreases |s|
  {
    hide WellFormed, Held, DigitValue, Spacer, Seen, Body;
    if s == "" {
      assert p + s == p;
    } else {
      var c := s[0];
      assert p + s == (p + [c]) + s[1..];
      if Spacer(c) {
        if spacer.Some? && spacer.value != c {
          SeenSpacer(p, spacer);
          SpacerBad(p, s, base, spacer.value, n);
        } else {
          SpacerNext(p, c, base, spacer);
          DigitsExactFrom(p + [c], s[1..], base, m, Some(c), n);
        }
      } else {
        var next := (m * base + DigitValue(c)) % UINT64_RANGE;
        if !DigitOf(c, base) {
          DigitBad(p, s, base, n);
        } else if next < m {
          DropBad(p, s, base, n);
        } else {
          DigitNext(p, c, base, spacer);
          DigitsExactFrom(p + [c], s[1..], base, next, spacer, n);
        }
      }
    }
  }

  lemma SeenSpacer(p: string, spacer: Option<char>)
    requires Seen(p, spacer) && spacer.Some?
    ensures Spacer(spacer.value) && spacer.value in p
  {
  }

  /** The digit parser accepts exactly the grouped digits, with their number. */
  lemma DigitsExact(s: string, base: nat, n: nat)
    ensures ParseDigits(s, base, 0, None) == Some(n) <==> Denotes(s, base, n)
  {
    hide ParseDigits;
    assert "" + s == s && Body("") == "";
    DigitsExactFrom("", s, base, 0, None, n);
  }

  lemma BlankTail(s: string, p: nat)
    requires 0 < p <= |s| && Blank(s[..p])
    ensures s[0] == ' ' && Blank(s[1..][..p - 1])
  {
    assert s[..p][0] == s[0];
    var t := s[..p][1..];
    assert s[1..][..p - 1] == t && forall j :: 0 <= j < |t| ==> t[j] == ' ';
  }

  lemma {:induction false} SkipAt(s: string, p: nat)
    requires p <= |s| && Blank(s[..p]) && (p < |s| ==> s[p] != ' ')
    ensures Skip(s) == s[p..]
    decreases p
  {
    if p > 0 {
      BlankTail(s, p);
      SkipAt(s[1..], p - 1);
      assert s[1..][p - 1..] == s[p..];
    }
  }

  /** Where the blanks in front end. */
  lemma {:induction false} Blanks(s: string) returns (p: nat)
    ensures p <= |s| && Blank(s[..p]) && (p < |s| ==> s[p] != ' ')
    decreases |s|
  {
    p := 0;
    if s != "" && s[0] == ' ' {
      var q := Blanks(s[1..]);
      p := q + 1;
      assert forall i :: 0 < i < p ==> s[..p][i] == s[1..][..q][i - 1];
    }
  }

  /** The front of a text is what the parser skips. */
  lemma FrontSkipped(s: string, p: nat, plus: int)
    requires Front(s, p, plus)
    ensures AfterPlus(s) == s[p..]
  {
    hide Skip, Blank;
    if plus < 0 {
      SkipAt(s, p);
    } else {
      SkipAt(s, plus);
      var t := s[plus + 1..];
      assert s[plus..][1..] == t && t[..p - plus - 1] == s[plus + 1..p];
      SkipAt(t, p - plus - 1);
      assert t[p - plus - 1..] == s[p..];
    }
  }

  lemma FrontExists(s: string) returns (p: nat, plus: int)
    ensures Front(s, p, plus)
  {
    hide Blank;
    var j := Blanks(s);
    if j < |s| && s[j] == '+' {
      var t := s[j + 1..];
      var k := Blanks(t);
      p, plus := j + 1 + k, j;
      assert t[..k] == s[plus + 1..p];
    } else {
      p, plus := j, -1;
    }
  }

  lemma AnnouncedExact(b: string, base: nat, skip: nat)
    ensures Announced(b) == Some((base, skip)) <==> Announces(b, base, skip)
    ensures Announces(b, base, skip) ==> skip <= |b|
  {
  }

  /** Where the front of the text ends, the parser finds the prefix and the digits. */
  lemma UnsignedAgrees(s: string, p: nat, plus: int, n: nat)
    requires Front(s, p, plus)
    ensures p <= |s|
    ensures var a := Announced(s[p..]);
            && (a.Some? ==> p + a.value.1 <= |s|)
            && (ParseUnsigned(s) == Some(n) <==> a.Some? && Denotes(s[p + a.value.1..], a.value.0, n))
  {
    hide ParseDigits, Denotes, AfterPlus, Blank;
    FrontSkipped(s, p, plus);
    var b := s[p..];
    if Announced(b).Some? {
      var (base, skip) := Announced(b).value;
      DigitsExact(b[skip..], base, n);
      assert b[skip..] == s[p + skip..];
    }
  }

  /** The unsigned parser accepts exactly the unsigned numbers. */
  lemma UnsignedExact(s: string, n: nat)
    ensures ParseUnsigned(s) == Some(n) <==> IsUnsigned(s, n)
  {
    hide ParseDigits, Denotes, Announced, Announces, AfterPlus, Front;
    var p, plus := FrontExists(s);
    if ParseUnsigned(s) == Some(n) {
      UnsignedAgrees(s, p, plus, n);
      var (base, skip) := Announced(s[p..]).value;
      AnnouncedExact(s[p..], base, skip);
      assert UnsignedAt(s, p, plus, base, skip, n);
    }
    if IsUnsigned(s, n) {
      var p': nat, plus': int, base: nat, skip: nat :| UnsignedAt(s, p', plus', base, skip, n);
      UnsignedAgrees(s, p', plus', n);
      AnnouncedExact(s[p'..], base, skip);
    }
  }

  /** Behind the blanks, the sign is where the text says. */
  lemma {:induction false} SignExact(s: string, q: nat)
    requires q <= |s| && Blank(s[..q]) && (q < |s| ==> s[q] != ' ')
    ensures SignOf(s) == if Signed(s, q) then Some((SignAt(s, q, '-'), AfterSign(s, q))) else None
    decreases q
  {
    if q > 0 {
      BlankTail(s, q);
      SignExact(s[1..], q - 1);
      assert s[1..][q - 1..] == s[q..];
      assert q < |s| ==> s[1..][q..] == s[q + 1..];
    }
  }

  /** The signed parser accepts exactly the signed numbers. */
  lemma SignedExact(s: string, i: int)
    ensures ParseSigned(s) == Some(i) <==> IsSigned(s, i)
  {
    hide ParseUnsigned, IsUnsigned, SignOf, Signed, AfterSign;
    var q := Blanks(s);
    SignExact(s, q);
    if ParseSigned(s) == Some(i) {
      var v := ParseUnsigned(AfterSign(s, q)).value;
      UnsignedExact(AfterSign(s, q), v);
      assert SignedAt(s, q, v, i);
    }
    if IsSigned(s, i) {
      var q': nat, v: nat :| SignedAt(s, q', v, i);
      SignedNoBlank(s, q');
      SignExact(s, q');
      UnsignedExact(AfterSign(s, q'), v);
    }
  }

  lemma SignedNoBlank(s: string, q: nat)
    requires Signed(s, q)
    ensures q <= |s| && Blank(s[..q]) && (q < |s| ==> s[q] != ' ')
  {
  }

  /** `r` is the number that a text is, or None if it is none. */
  ghost predicate ReadsUnsigned(s: string, r: Option<nat>) { forall n: nat :: r == Some(n) <==> IsUnsigned(s, n) }

  ghost predicate ReadsSigned(s: string, r: Option<int>) { forall i: int :: r == Some(i) <==> IsSigned(s, i) }

  ghost predicate ReadsDigits(s: string, base: nat, r: Option<nat>) {
    forall n: nat :: r == Some(n) <==> Denotes(s, base, n)
  }

  lemma UnsignedReads(s: string)
    ensures ReadsUnsigned(s, ParseUnsigned(s))
  {
    hide ParseUnsigned, IsUnsigned;
    forall n: nat
      ensures ParseUnsigned(s) == Some(n) <==> IsUnsigned(s, n)
    {
      UnsignedExact(s, n);
    }
  }

  lemma SignedReads(s: string)
    ensures ReadsSigned(s, ParseSigned(s))
  {
    hide ParseSigned, IsSigned;
    forall i: int
      ensures ParseSigned(s) == Some(i) <==> IsSigned(s, i)
    {
      SignedExact(s, i);
    }
  }

  lemma DigitsReads(s: string, base: nat)
    ensures ReadsDigits(s, base, ParseDigits(s, base, 0, None))
  {
    hide ParseDigits, Denotes;
    forall n: nat
      ensures ParseDigits(s, base, 0, None) == Some(n) <==> Denotes(s, base, n)
    {
      DigitsExact(s, base, n);
    }
  }

  /** Texts that are no numbers. */
  lemma NoNumbers(n: nat)
    ensures !IsUnsigned("123-000", n) && !IsUnsigned("xaffe", n)
  {
    UnsignedExact("123-000", n);
    UnsignedExact("xaffe", n);
    hide IsUnsigned;
  }

  // ------------------------------------------------------------------ the parser as loops

  /** The character at a place, NUL at the end. */
  function At(s: string, p: nat): char { if p < |s| then s[p] else '\0' }

  predicate Terminated(s: string) { forall k :: 0 <= k < |s| ==> s[k] != '\0' }

  method SkipFrom(s: string, from: nat) returns (p: nat)
    requires Terminated(s) && from <= |s|
    ensures from <= p <= |s| && s[p..] == Skip(s[from..])
  {
    p := from;
    while At(s, p) == ' '
      invariant from <= p <= |s| && Skip(s[p..]) == Skip(s[from..])
      decreases |s| - p
    {
      assert s[p..][1..] == s[p + 1..];
      p := p + 1;
    }
  }

  /** The unsigned parser. */
  method StringToUnsigned(s: string) returns (r: Option<nat>)
    requires Terminated(s)
    ensures r == ParseUnsigned(s)
    ensures ReadsUnsigned(s, r)
  {
    hide ParseDigits, ReadsUnsigned, ReadsDigits, Skip;
    UnsignedReads(s);
    assert s[0..] == s;
    var p := SkipFrom(s, 0);
    ghost var a := s[p..];
    if At(s, p) == '+' {
      assert a[1..] == s[p + 1..];
      p := SkipFrom(s, p + 1);
    }
    ghost var b := s[p..];
    assert b == AfterPlus(s);
    var base := 10;
    if At(s, p) == '0' && At(s, p + 1) != '\0' {
      assert b[0] == s[p] && b[1] == s[p + 1];
      if At(s, p + 1) == 'x' || At(s, p + 1) == 'X' {
        base := 16;
        p := p + 2;
      } else if At(s, p + 1) == 'b' || At(s, p + 1) == 'B' {
        base := 2;
        p := p + 2;
      } else if '1' <= At(s, p + 1) <= '7' {
        base := 8;
        p := p + 1;
      } else {
        return None;
      }
    }
    r := DigitsToUnsigned(s, p, base);
  }

  /** The digit loop of the unsigned parser. */
  method DigitsToUnsigned(s: string, from: nat, base: nat) returns (r: Option<nat>)
    requires Terminated(s) && from <= |s|
    ensures r == ParseDigits(s[from..], base, 0, None)
    ensures ReadsDigits(s[from..], base, r)
  {
    hide ReadsDigits;
    DigitsReads(s[from..], base);
    var p: nat, n: nat := from, 0;
    var spacer := None;
    while At(s, p) != '\0'
      invariant from <= p <= |s|
      invariant ParseDigits(s[p..], base, n, spacer) == ParseDigits(s[from..], base, 0, None)
      decreases |s| - p
    {
      var c := s[p];
      assert s[p..][0] == c && s[p..][1..] == s[p + 1..];
      if Spacer(c) {
        if spacer.Some? && spacer.value != c {
          return None;
        }
        spacer := Some(c);
      } else {
        var v := DigitValue(c);
        if v == 99 {
          return None;
        }
        if v > base || (n * base + v) % UINT64_RANGE < n {
          return None;
        }
        n := (n * base + v) % UINT64_RANGE;
      }
      p := p + 1;
    }
    r := Some(n);
  }

  /** The signed parser. */
  method StringToSigned(s: string) returns (r: Option<int>)
    requires Terminated(s)
    ensures r == ParseSigned(s)
    ensures ReadsSigned(s, r)
  {
    hide ParseUnsigned, ReadsSigned, ReadsUnsigned;
    SignedReads(s);
    var p, minus := 0, false;
    assert s[0..] == s;
    while p < |s|
      invariant 0 <= p <= |s| && !minus && SignOf(s[p..]) == SignOf(s)
      decreases |s| - p
    {
      assert s[p..][0] == s[p] && s[p..][1..] == s[p + 1..];
      if s[p] == '-' {
        minus := true;
        p := p + 1;
        break;
      } else if s[p] == '+' {
        p := p + 1;
        break;
      } else if '0' <= s[p] <= '9' {
        break;
      } else if s[p] != ' ' {
        return None;
      }
      p := p + 1;
    }
    assert SignOf(s) == Some((minus, s[p..]));
    var v := StringToUnsigned(s[p..]);
    if v.Some? {
      if (minus && v.value <= LLONG_MAX + 1) || (!minus && v.value <= LLONG_MAX) {
        return Some(if minus then 0 - v.value as int else v.value);
      }
    }
    return None;
  }

  // ------------------------------------------------------------------ printed numbers

  /** Formats whose output names its base: decimal, or with prefix. */
  predicate Readable(f: Format) { Sensible(f) && f.fill == ' ' && (f.base == 10 || f.prefix) }

  lemma {:induction false} SkipSpaces(n: nat, s: string)
    ensures Skip(Repeat(' ', n) + s) == Skip(s)
    decreases n
  {
    if n > 0 {
      assert (Repeat(' ', n) + s)[1..] == Repeat(' ', n - 1) + s;
      SkipSpaces(n - 1, s);
    } else {
      assert Repeat(' ', 0) + s == s;
    }
  }

  lemma {:induction false} SignSpaces(n: nat, s: string)
    ensures SignOf(Repeat(' ', n) + s) == SignOf(s)
    decreases n
  {
    if n > 0 {
      assert (Repeat(' ', n) + s)[0] == ' ' && (Repeat(' ', n) + s)[1..] == Repeat(' ', n - 1) + s;
      SignSpaces(n - 1, s);
    } else {
      assert Repeat(' ', 0) + s == s;
    }
  }

  /** Trailing spaces end the digits. */
  lemma {:induction false} TrailingSpaces(base: nat, n: nat, spacer: Option<char>, t: nat)
    requires spacer.None? || spacer.value == ' '
    ensures ParseDigits(Repeat(' ', t), base, n, spacer) == Some(n)
    decreases t
  {
    if t > 0 {
      assert Repeat(' ', t)[1..] == Repeat(' ', t - 1);
      TrailingSpaces(base, n, Some(' '), t - 1);
    }
  }

  /** All characters are digits of the base. */
  predicate Numeral(s: string, base: nat) { forall k :: 0 <= k < |s| ==> DigitValue(s[k]) < base && !Spacer(s[k]) }

  lemma {:induction false} ValueGrows(n: nat, s: string, base: nat)
    requires base >= 1
    ensures Value(n, s, base) >= n
    decreases |s|
  {
    if s != "" {
      ValueGrows(n * base + DigitValue(s[0]), s[1..], base);
      Grows(n, base);
    }
  }

  lemma Grows(n: nat, base: nat)
    requires base >= 1
    ensures n * base >= n
  {
  }

  /** Digits whose value fits into 64 bits are read without overflow. */
  lemma {:induction false} DigitsRead(s: string, base: nat, n: nat, t: nat)
    requires 2 <= base <= 16 && Numeral(s, base) && Value(n, s, base) < UINT64_RANGE
    ensures ParseDigits(s + Repeat(' ', t), base, n, None) == Some(Value(n, s, base))
    decreases |s|
  {
    hide DigitValue;
    var w := s + Repeat(' ', t);
    if s == "" {
      assert w == Repeat(' ', t);
      TrailingSpaces(base, n, None, t);
    } else {
      var m := n * base + DigitValue(s[0]);
      assert w[0] == s[0] && w[1..] == s[1..] + Repeat(' ', t);
      ValueGrows(m, s[1..], base);
      Grows(n, base);
      assert Numeral(s[1..], base) by { assert forall k :: 0 <= k < |s| - 1 ==> s[1..][k] == s[k + 1]; }
      DigitsRead(s[1..], base, m, t);
    }
  }

  lemma {:induction false} DigitsNumeral(v: nat, base: nat, k: nat, hexchar: char)
    requires 2 <= base <= 16 && v < Pow(base, k) && (hexchar == 'a' || hexchar == 'A')
    ensures Numeral(DigitsFrom(v, base, k, hexchar), base)
    decreases k
  {
    hide DigitsFrom, Pow, Top, Rest;
    if k > 0 {
      DigitsStep(v, base, k, hexchar);
      DigitBack(Top(v, base, k), hexchar);
      DigitsNumeral(Rest(v, base, k), base, k - 1, hexchar);
      NumeralStep(DigitsFrom(v, base, k, hexchar), base);
    }
  }

  lemma NumeralStep(s: string, base: nat)
    requires s != ""
    ensures Numeral(s, base) <==> DigitValue(s[0]) < base && !Spacer(s[0]) && Numeral(s[1..], base)
  {
    assert forall k :: 0 < k < |s| ==> s[k] == s[1..][k - 1];
  }

  /** The digits of a value, followed by spaces, read back as the value. */
  lemma DigitsRoundTrip(v: nat, base: nat, hexchar: char, t: nat)
    requires 2 <= base <= 16 && (hexchar == 'a' || hexchar == 'A') && v < UINT64_RANGE
    ensures ParseDigits(Digits(v, base, hexchar) + Repeat(' ', t), base, 0, None) == Some(v)
  {
    LengthBounds(v, base);
    DigitsNumeral(v, base, Length(v, base), hexchar);
    DigitsMean(v, base, hexchar);
    DigitsRead(Digits(v, base, hexchar), base, 0, t);
  }

  // ------------------------------------------------------------------ round trips

  /** A zero in decimal or octal that is followed by padding: the parser takes it for a prefix. */
  predicate Blocked(v: nat, minus: bool, f: Format)
    requires Sensible(f)
  {
    v == 0 && (f.base == 10 || f.base == 8) && f.left && f.width > Natural(v, minus, SIZE_MAX, f)
  }

  /** How a space-filled number is laid out. */
  lemma TextParts(v: nat, minus: bool, f: Format) returns (before: nat, behind: nat)
    requires Readable(f)
    ensures Text(v, minus, SIZE_MAX, f) ==
              Repeat(' ', before) + (Lead(v, minus, SIZE_MAX, f) + (Digits(v, f.base, f.hexchar) + Repeat(' ', behind)))
    ensures behind > 0 <==> f.left && f.width > Natural(v, minus, SIZE_MAX, f)
  {
    hide Lead, Digits, Length, Natural;
    var n := Natural(v, minus, SIZE_MAX, f);
    var pad := if f.width > n then f.width - n else 0;
    before, behind := if f.left then 0 else pad, if f.left then pad else 0;
    assert Repeat(' ', 0) == "";
  }

  /** Decimal digits without sign. */
  lemma PlainRoundTrip(v: nat, hexchar: char, t: nat)
    requires (hexchar == 'a' || hexchar == 'A') && v < UINT64_RANGE
    ensures var d := Digits(v, 10, hexchar) + Repeat(' ', t);
            && d != "" && '0' <= d[0] <= '9' && Skip(d) == d
            && ParseUnsigned(d) == if v == 0 && t > 0 then None else Some(v)
  {
    hide Digits, ParseDigits;
    var d := Digits(v, 10, hexchar) + Repeat(' ', t);
    DigitsMean(v, 10, hexchar);
    DigitsRoundTrip(v, 10, hexchar, t);
    Decimal(Digits(v, 10, hexchar)[0]);
    assert d[0] == Digits(v, 10, hexchar)[0] && d[0..] == d;
    if v == 0 {
      assert t > 0 ==> d[1] == ' ';
    }
  }

  lemma Decimal(c: char)
    requires DigitValue(c) < 10
    ensures '0' <= c <= '9'
  {
  }

  /** Unsigned numbers: what is printed with a base prefix or in decimal, padded with spaces, reads
      back as the value, except for a zero with padding behind it. */
  lemma UnsignedRoundTrip(v: nat, f: Format)
    requires Readable(f) && v < UINT64_RANGE
    ensures ParseUnsigned(Text(v, false, SIZE_MAX, f)) == if Blocked(v, false, f) then None else Some(v)
  {
    var before, t := TextParts(v, false, f);
    var lead, d := Lead(v, false, SIZE_MAX, f), Digits(v, f.base, f.hexchar);
    SkipSpaces(before, lead + (d + Repeat(' ', t)));
    hide Text, Natural, Digits, ParseDigits, Skip, Length;
    if f.base == 10 {
      DecimalLead(v, f, t);
    } else if f.base == 8 && v == 0 {
      DigitsMean(0, 8, f.hexchar);
      DigitsMean(0, 10, f.hexchar);
      PlainRoundTrip(0, f.hexchar, t);
      assert "" + (d + Repeat(' ', t)) == d + Repeat(' ', t);
    } else {
      PrefixRoundTrip(v, f, t);
    }
  }

  lemma DecimalLead(v: nat, f: Format, t: nat)
    requires Sensible(f) && f.base == 10 && v < UINT64_RANGE
    ensures ParseUnsigned(Lead(v, false, SIZE_MAX, f) + (Digits(v, 10, f.hexchar) + Repeat(' ', t)))
            == if v == 0 && t > 0 then None else Some(v)
  {
    hide Digits, ParseDigits, Announced;
    var d := Digits(v, 10, f.hexchar) + Repeat(' ', t);
    PlainRoundTrip(v, f.hexchar, t);
    assert "" + d == d;
    assert ("+" + d)[1..] == d && (" " + d)[1..] == d;
    assert AfterPlus(d) == d;
    assert AfterPlus("+" + d) == Skip(d);
    assert AfterPlus(" " + d) == AfterPlus(d);
  }

  /** The prefixes 0b, 0 and 0x announce their base. */
  lemma PrefixRoundTrip(v: nat, f: Format, t: nat)
    requires Sensible(f) && f.prefix && f.base != 10 && (f.base == 8 ==> v != 0) && v < UINT64_RANGE
    ensures ParseUnsigned(Lead(v, false, SIZE_MAX, f) + (Digits(v, f.base, f.hexchar) + Repeat(' ', t))) == Some(v)
  {
    hide Digits, ParseDigits, Length;
    var lead, d := Lead(v, false, SIZE_MAX, f), Digits(v, f.base, f.hexchar) + Repeat(' ', t);
    DigitsRoundTrip(v, f.base, f.hexchar, t);
    DigitsMean(v, f.base, f.hexchar);
    assert d[0] == Digits(v, f.base, f.hexchar)[0];
    if f.base == 8 {
      Decimal(d[0]);
    }
    assert (lead + d)[|lead|..] == d;
    assert AfterPlus(lead + d) == lead + d;
  }

  /** Signed numbers in decimal, above the least one, read back likewise. */
  lemma SignedRoundTrip(i: int, f: Format)
    requires Readable(f) && f.base == 10 && -(LLONG_MAX as int) <= i <= LLONG_MAX
    ensures var (v, minus) := if i < 0 then (-i, true) else (i, false);
            ParseSigned(Text(v, minus, SIZE_MAX, f)) == if Blocked(v, minus, f) then None else Some(i)
  {
    var v: nat, minus := if i < 0 then -i else i, i < 0;
    var before, t := TextParts(v, minus, f);
    var lead, d := Lead(v, minus, SIZE_MAX, f), Digits(v, 10, f.hexchar) + Repeat(' ', t);
    SignSpaces(before, lead + d);
    PlainRoundTrip(v, f.hexchar, t);
    hide Text, Natural, Digits, ParseUnsigned, Length, SignOf;
    LeadSign(lead, d, minus);
  }

  /** The sign in front of decimal digits. */
  lemma LeadSign(lead: string, d: string, minus: bool)
    requires d != "" && '0' <= d[0] <= '9'
    requires if minus then lead == "-" else lead == "+" || lead == " " || lead == ""
    ensures SignOf(lead + d) == Some((minus, d))
  {
    assert (lead + d)[|lead|..] == d;
    assert SignOf(d) == Some((false, d));
    if lead == " " {
      assert SignOf(lead + d) == SignOf(d);
    } else if lead == "" {
      assert lead + d == d;
    }
  }
}
