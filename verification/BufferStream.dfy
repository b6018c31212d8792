/** The character buffer that numbers are printed into. */
module BufferStreams {
  import opened NumberText
  import opened NumberShape

  /** As much of a text as there is room for. */
  function Clip(s: string, room: nat): string { if |s| <= room then s else s[..room] }

  lemma ClipParts(a: string, b: string, room: nat)
    ensures |Clip(a, room)| <= room && Clip(a, room) + Clip(b, room - |Clip(a, room)|) == Clip(a + b, room)
  {
    if |a| > room {
      assert (a + b)[..room] == a[..room];
      assert b[..0] == "";
      assert a[..room] + "" == a[..room];
    } else if |a| + |b| > room {
      assert (a + b)[..room] == a + b[..room - |a|];
    }
  }

  /** The text `after` is `before` with as much of `s` as fits into `room`, which leaves `rest`. */
  ghost predicate Follows(before: string, room: nat, s: string, after: string, rest: nat) {
    after == before + Clip(s, room) && rest == room - |Clip(s, room)|
  }

  /** Two pieces written one after the other. */
  lemma Joined(before: string, room: nat, a: string, mid: string, left: nat, b: string, after: string, rest: nat)
    requires Follows(before, room, a, mid, left) && Follows(mid, left, b, after, rest)
    ensures Follows(before, room, a + b, after, rest)
  {
    ClipParts(a, b, room);
    hide Clip;
    assert (before + Clip(a, room)) + Clip(b, left) == before + (Clip(a, room) + Clip(b, left));
  }

  lemma ClipNext(s: string, i: nat, room: nat)
    requires i < |s|
    ensures Clip(s[..i + 1], room) == if i < room then Clip(s[..i], room) + [s[i]] else Clip(s[..i], room)
  {
    assert s[..i + 1] == s[..i] + [s[i]];
    if i >= room { assert s[..i + 1][..room] == s[..room]; }
  }

  class BufferStream {
    const bufptr: array<char>
    var pos: nat
    var base: nat
    var width: nat
    var fill: char
    var hexchar: char
    var prefix: bool
    var left: bool
    var sign: Sign

    ghost predicate Valid()
      reads this
    {
      (if bufptr.Length == 0 then pos == 0 else pos < bufptr.Length) && Sensible(Modifiers())
    }

    function Modifiers(): Format
      reads this
    {
      Format(base, width, fill, hexchar, prefix, left, sign)
    }

    /** What has been written. */
    ghost function Contents(): string
      reads this, bufptr
      requires Valid()
    {
      bufptr[..pos]
    }

    /** How many characters still fit; the last place is kept for the terminator. */
    ghost function Room(): nat
      reads this
      requires Valid()
    {
      if bufptr.Length == 0 then 0 else bufptr.Length - 1 - pos
    }

    constructor (len: nat)
      ensures Valid() && Contents() == "" && fresh(bufptr) && bufptr.Length == len
      ensures Modifiers() == Format(10, 0, ' ', 'a', false, true, MinusOnly)
    {
      bufptr := new char[len](_ => '\0');
      pos := 0;
      base, width, fill, hexchar, prefix, left, sign := 10, 0, ' ', 'a', false, true, MinusOnly;
    }

    /** Behind what was there, as much of `s` as there was room for. */
    twostate predicate Wrote(s: string)
      reads this, bufptr
      requires old(Valid()) && Valid()
    {
      Follows(old(Contents()), old(Room()), s, Contents(), Room())
    }

    /** Puts one character at the end, if there is room. */
    method Append(c: char)
      requires Valid()
      modifies `pos, bufptr
      ensures Valid() && Wrote([c])
    {
      if pos + 1 < bufptr.Length {
        bufptr[pos] := c;
        pos := pos + 1;
      }
    }

    /** Writes a character several times. */
    method Write(c: char, num: nat)
      requires Valid()
      modifies `pos, bufptr
      ensures Valid() && Wrote(Repeat(c, num))
    {
      var i := 0;
      ghost var s, room := Repeat(c, num), Room();
      while i < num
        invariant 0 <= i <= num && Valid()
        invariant Wrote(s[..i])
      {
        ClipNext(s, i, room);
        Append(c);
        i := i + 1;
      }
      assert s[..num] == s;
    }

    /** Writes one character, padded to the width. */
    method Put(c: char)
      requires Valid()
      modifies `pos, `width, bufptr
      ensures Valid() && width == 0
      ensures var pad := Repeat(fill, if old(width) > 1 then old(width) - 1 else 0);
              Wrote(if left then [c] + pad else pad + [c])
    {
      hide Repeat, Clip;
      ghost var room, pad := Room(), Repeat(fill, if width > 1 then width - 1 else 0);
      ClipParts([c], pad, room);
      ClipParts(pad, [c], room);
      NoPad(fill, [c]);
      if width > 1 && !left {
        Write(fill, width - 1);
      }
      Append(c);
      if width > 1 && left {
        Write(fill, width - 1);
      }
      width := 0;
    }

    // ---------------------------------------------------------------- numbers

    /** The number of digits and the highest power of the base that does not exceed the value. */
    method CountDigits(ival: nat) returns (n: nat, div: nat)
      requires base >= 2
      ensures n == Length(ival, base) && div == Pow(base, n - 1) && div > 0
    {
      hide Pow, Length;
      n, div := 1, 1;
      PowStep(base, 0);
      while ival / div >= base
        invariant n >= 1 && div == Pow(base, n - 1) && 1 <= div
        invariant n > 1 ==> div <= ival
        decreases ival - div
      {
        MulBound(ival, div, base);
        MulMono(div, 2, base);
        PowStep(base, n - 1);
        div := div * base;
        n := n + 1;
      }
      PowStep(base, n - 1);
      DivBound(ival, div, base);
      LengthUnique(ival, base, n);
    }

    /** Prints the `k` lowest digits. */
    method PutDigits(value: nat, top: nat, ghost k0: nat)
      requires Valid() && width == 0 && k0 > 0 && value < Pow(base, k0) && top == Pow(base, k0 - 1)
      modifies `pos, `width, bufptr
      ensures Valid() && width == 0 && Wrote(DigitsFrom(value, base, k0, hexchar))
    {
      hide Pow, DigitsFrom, DigitChar, Clip;
      var ival: nat, div: nat := value, top;
      ghost var k: nat := k0;
      ghost var out, all := "", DigitsFrom(value, base, k0, hexchar);
      NoPad(' ', all);
      ClipNone(Room());
      while div > 0
        invariant Valid() && width == 0 && ival < Pow(base, k) && div == if k > 0 then Pow(base, k - 1) else 0
        invariant Wrote(out) && out + DigitsFrom(ival, base, k, hexchar) == all
        decreases k
      {
        DigitsStep(ival, base, k, hexchar);
        assert Top(ival, base, k) == ival / div && Rest(ival, base, k) == ival % div;
        var digit := ival / div;
        NoPad(fill, [DigitChar(digit, hexchar)]);
        Put(DigitChar(digit, hexchar));
        NextDigit(out, DigitChar(digit, hexchar), DigitsFrom(ival, base, k, hexchar), old(Room()));
        out := out + [DigitChar(digit, hexchar)];
        ival := ival % div;
        LowerPower(base, k);
        div := div / base;
        k := k - 1;
      }
      if k > 0 { PowPositive(base, k - 1); }
      NoPad(' ', out);
    }

    /** Prints the sign or the base prefix. */
    method PutLead(ival: nat, minus: bool, ignoreOctPrefix: bool, ghost precision: nat)
      requires Valid() && width == 0
      requires base == 8 && prefix ==>
          (ignoreOctPrefix <==> ival == 0 || (precision != SIZE_MAX && Length(ival, 8) < precision))
      modifies `pos, `width, bufptr
      ensures Valid() && width == 0 && Wrote(Lead(ival, minus, precision, Modifiers()))
    {
      hide Clip, Length;
      ClipNone(Room());
      ghost var room := Room();
      NoPad(fill, "0");
      match base {
        case 2 =>
          if prefix {
            PutTwo('0', 'b');
          }
        case 8 =>
          if prefix && !ignoreOctPrefix {
            PutOne('0');
          }
        case 16 =>
          if prefix {
            PutTwo('0', if hexchar == 'A' then 'X' else 'x');
          }
        case _ =>
          if minus {
            PutOne('-');
          } else if sign.Plus? {
            PutOne('+');
          } else if sign.Space? {
            PutOne(' ');
          }
      }
    }

    method PutOne(c: char)
      requires Valid() && width == 0
      modifies `pos, `width, bufptr
      ensures Valid() && width == 0 && Wrote([c])
    {
      NoPad(fill, [c]);
      Put(c);
    }

    method PutTwo(c: char, d: char)
      requires Valid() && width == 0
      modifies `pos, `width, bufptr
      ensures Valid() && width == 0 && Wrote([c, d])
    {
      hide Clip;
      ClipParts([c], [d], Room());
      assert [c] + [d] == [c, d];
      PutOne(c);
      PutOne(d);
    }

    /** The part of `WriteFillUnsigned` that counts: the length `n` of the text without padding. */
    method CountAll(ival: nat, minus: bool, precision: nat)
      returns (n: nat, ivalPrecision: nat, div: nat, ignoreOctPrefix: bool)
      requires Valid() && !(ival == 0 && precision == 0)
      ensures n == Natural(ival, minus, precision, Modifiers())
      ensures ivalPrecision == Length(ival, base) && div == Pow(base, ivalPrecision - 1)
      ensures base == 8 && prefix ==>
          (ignoreOctPrefix <==> ival == 0 || (precision != SIZE_MAX && Length(ival, 8) < precision))
    {
      hide Clip, Length, Lead, Digits, Pow, Repeat;
      n, div := CountDigits(ival);
      ivalPrecision := n;
      if precision != SIZE_MAX && n < precision {
        n := precision;
      }
      ignoreOctPrefix := false;
      if base == 10 && (minus || !sign.MinusOnly?) {
        n := n + 1;
      } else if base == 8 && prefix {
        if ivalPrecision != n || ival == 0 {
          ignoreOctPrefix := true;
        } else {
          n := n + 1;
        }
      } else if (base == 2 || base == 16) && prefix {
        n := n + 2;
      }
      LeadLength(ival, minus, precision, Modifiers());
    }

    /** Prints an unsigned number with its sign, prefix and padding. */
    method WriteFillUnsigned(ival: nat, minus: bool, precision: nat)
      requires Valid()
      modifies `pos, `width, bufptr
      ensures Valid() && Wrote(Text(ival, minus, precision, old(Modifiers())))
      ensures exists s :: Shows(s, ival, minus, precision, old(Modifiers())) && Wrote(s)
      ensures width == if ival == 0 && precision == 0 then old(width) else 0
    {
      hide Clip, Length, Lead, Digits, Pow, Repeat, Shows, Text, Follows;
      TextShows(ival, minus, precision, Modifiers());
      NoText(minus, precision, Modifiers());
      if ival == 0 && precision == 0 {
        Write(fill, width);
        return;
      }
      ghost var f := Modifiers();
      var n, ivalPrecision, div, ignoreOctPrefix := CountAll(ival, minus, precision);
      var pad := if width > n then width - n else 0;
      width := 0;
      PutParts(ival, minus, precision, ivalPrecision, div, ignoreOctPrefix, pad, f);
    }

    /** Padding in front of everything; returns the padding that is left. */
    method PadFirst(minus: bool, pad0: nat) returns (pad: nat)
      requires Valid()
      modifies `pos, bufptr
      ensures Valid() && Wrote(if !left && !PadInside(minus, Modifiers()) then Repeat(fill, pad0) else "")
      ensures pad == if !left && !PadInside(minus, Modifiers()) then 0 else pad0
    {
      hide Clip;
      ClipNone(Room());
      NoPad(fill, "");
      pad := pad0;
      if pad != 0 && !left && (fill != '0' || (!minus && !sign.Plus? && base == 10)) {
        Write(fill, pad);
        pad := 0;
      }
    }

    /** Padding between prefix and digits. */
    method PadInner(minus: bool, pad: nat)
      requires Valid()
      modifies `pos, bufptr
      ensures Valid() && Wrote(if !left && PadInside(minus, Modifiers()) then Repeat(fill, pad) else "")
    {
      hide Clip;
      ClipNone(Room());
      NoPad(fill, "");
      if pad != 0 && !left && fill == '0' && (minus || sign.Plus? || base != 10) {
        Write(fill, pad);
      }
    }

    /** Zeros up to the precision. */
    method PadZeros(ival: nat, precision: nat, ivalPrecision: nat)
      requires Valid() && ivalPrecision == Length(ival, base)
      modifies `pos, bufptr
      ensures Valid() && Wrote(Leading(ival, precision, Modifiers()))
    {
      hide Clip, Length;
      ClipNone(Room());
      NoPad('0', "");
      if precision != SIZE_MAX && ivalPrecision < precision {
        Write('0', precision - ivalPrecision);
      }
    }

    /** The part of `WriteFillUnsigned` before the digits; returns the padding that is left. */
    method PutFront(ival: nat, minus: bool, precision: nat, ivalPrecision: nat, ignoreOctPrefix: bool, pad0: nat,
                    ghost f: Format) returns (pad: nat)
      requires Valid() && Sensible(f) && Modifiers() == f.(width := 0)
      requires ivalPrecision == Length(ival, base) && Repeat(fill, pad0) == Padding(ival, minus, precision, f)
      requires base == 8 && prefix ==>
          (ignoreOctPrefix <==> ival == 0 || (precision != SIZE_MAX && Length(ival, 8) < precision))
      modifies `pos, `width, bufptr
      ensures Valid() && width == 0 && Wrote(Front(ival, minus, precision, f)) && (left ==> pad == pad0)
    {
      hide Length, Lead, Leading, Repeat, Padding, PadInside, Follows, Contents, Room, Valid;
      SameLead(ival, minus, precision, f);
      ghost var all := Padding(ival, minus, precision, f);
      ghost var first, inner := if !left && !PadInside(minus, f) then all else "",
          if !left && PadInside(minus, f) then all else "";
      ghost var lead, zeros := Lead(ival, minus, precision, f), Leading(ival, precision, f);
      ghost var c0, r0 := Contents(), Room();
      pad := PadFirst(minus, pad0);
      ghost var c1, r1 := Contents(), Room();
      PutLead(ival, minus, ignoreOctPrefix, precision);
      ghost var c2, r2 := Contents(), Room();
      Joined(c0, r0, first, c1, r1, lead, c2, r2);
      PadZeros(ival, precision, ivalPrecision);
      ghost var c3, r3 := Contents(), Room();
      Joined(c0, r0, first + lead, c2, r2, zeros, c3, r3);
      PadInner(minus, pad);
      Joined(c0, r0, first + lead + zeros, c3, r3, inner, Contents(), Room());
    }

    /** The second half of `WriteFillUnsigned`: padding, prefix, zeros, digits, padding. */
    method PutParts(ival: nat, minus: bool, precision: nat, ivalPrecision: nat, div: nat, ignoreOctPrefix: bool,
                    pad0: nat, ghost f: Format)
      requires Valid() && Sensible(f) && Modifiers() == f.(width := 0) && !(ival == 0 && precision == 0)
      requires ivalPrecision == Length(ival, base) && div == Pow(base, ivalPrecision - 1)
      requires Repeat(fill, pad0) == Padding(ival, minus, precision, f)
      requires base == 8 && prefix ==>
          (ignoreOctPrefix <==> ival == 0 || (precision != SIZE_MAX && Length(ival, 8) < precision))
      modifies `pos, `width, bufptr
      ensures Valid() && width == 0 && Wrote(Text(ival, minus, precision, f))
    {
      hide Clip, Length, Digits, Pow, Repeat, Padding, DigitsFrom, Text, Front;
      ghost var room, front := Room(), Front(ival, minus, precision, f);
      ghost var digits, last := Digits(ival, base, hexchar), if left then Padding(ival, minus, precision, f) else "";
      TextFront(ival, minus, precision, f);
      ClipParts(front, digits, room);
      ClipParts(front + digits, last, room);
      NoPad(fill, front + digits);
      DigitsAre(ival, base, hexchar);
      var pad := PutFront(ival, minus, precision, ivalPrecision, ignoreOctPrefix, pad0, f);
      PutDigits(ival, div, ivalPrecision);
      assert Wrote(front + digits);
      if pad != 0 && left {
        Write(fill, pad);
      }
    }

    /** Prints a signed number: the sign only in decimal, else as a 64-bit unsigned value. */
    method WriteFillSigned(ival: int, precision: nat)
      requires Valid() && -(UINT64_RANGE / 2) <= ival < UINT64_RANGE / 2
      requires base == 10 ==> ival > -(UINT64_RANGE / 2)
      modifies `pos, `width, bufptr
      ensures Valid()
      ensures var minus := ival < 0 && base == 10;
              Wrote(Text(if minus then -ival else ival % UINT64_RANGE, minus, precision, old(Modifiers())))
      ensures var minus := ival < 0 && base == 10;
              exists s :: Shows(s, if minus then -ival else ival % UINT64_RANGE, minus, precision, old(Modifiers()))
                          && Wrote(s)
    {
      hide Shows, Text;
      if ival < 0 && base == 10 {
        WriteFillUnsigned(-ival, true, precision);
      } else {
        WriteFillUnsigned(ival % UINT64_RANGE, false, precision);
      }
    }
  }

  /** A zero with precision 0 is all padding. */
  lemma NoText(minus: bool, precision: nat, f: Format)
    requires Sensible(f)
    ensures precision == 0 ==> Text(0, minus, precision, f) == Repeat(f.fill, f.width)
  {
  }

  lemma NoPad(c: char, s: string)
    ensures Repeat(c, 0) == "" && "" + s == s && s + "" == s
  {
  }

  lemma ClipNone(room: nat)
    ensures Clip("", room) == ""
  {
  }

  /** What stands before the digits, with padding. */
  function Front(v: nat, minus: bool, precision: nat, f: Format): string
    requires Sensible(f)
  {
    var pad := Padding(v, minus, precision, f);
    (if !f.left && !PadInside(minus, f) then pad else "")
    + Lead(v, minus, precision, f) + Leading(v, precision, f)
    + (if !f.left && PadInside(minus, f) then pad else "")
  }

  lemma TextFront(v: nat, minus: bool, precision: nat, f: Format)
    requires Sensible(f) && !(v == 0 && precision == 0)
    ensures Text(v, minus, precision, f) ==
              Front(v, minus, precision, f) + Digits(v, f.base,
                  f.hexchar) + (if f.left then Padding(v, minus, precision, f) else "")
  {
    hide Lead, Leading, Digits, Padding;
  }

  lemma NextDigit(out: string, c: char, rest: string, room: nat)
    requires rest != "" && rest[0] == c
    ensures |Clip(out, room)| <= room && Clip(out, room) + Clip([c], room - |Clip(out, room)|) == Clip(out + [c], room)
    ensures (out + [c]) + rest[1..] == out + rest
  {
    ClipParts(out, [c], room);
  }

  lemma LowerPower(base: nat, k: nat)
    requires base >= 2 && k > 0
    ensures Pow(base, k - 1) / base == if k > 1 then Pow(base, k - 2) else 0
  {
    if k > 1 {
      PowStep(base, k - 2);
      DivBack(base, Pow(base, k - 2));
    }
  }

  lemma DivBack(b: nat, q: nat)
    requires b > 0
    ensures (b * q) / b == q
  {
    var c := (b * q) / b;
    assert b * c <= b * q < b * c + b;
    MulMono(b, c + 1, q);
    MulMono(b, q + 1, c);
  }

  /** Width plays no part in what stands before the digits. */
  lemma SameLead(v: nat, minus: bool, precision: nat, f: Format)
    requires f.base >= 2
    ensures Lead(v, minus, precision, f.(width := 0)) == Lead(v, minus, precision, f)
    ensures Leading(v, precision, f.(width := 0)) == Leading(v, precision, f)
    ensures PadInside(minus, f.(width := 0)) <==> PadInside(minus, f)
  {
  }

  /** What the code adds to the number of digits. */
  lemma LeadLength(v: nat, minus: bool, precision: nat, f: Format)
    requires Sensible(f)
    ensures |Lead(v, minus, precision, f)| ==
              if f.base == 10 then (if minus || !f.sign.MinusOnly? then 1 else 0)
              else if f.base == 8 then (if f.prefix && v != 0
                  && !(precision != SIZE_MAX && Length(v, 8) < precision) then 1 else 0)
              else if f.prefix then 2 else 0
  {
    hide Length;
  }

  lemma DigitsAre(v: nat, base: nat, hexchar: char)
    requires 2 <= base <= 16 && (hexchar == 'a' || hexchar == 'A')
    ensures v < Pow(base, Length(v, base)) && Digits(v, base, hexchar) == DigitsFrom(v, base, Length(v, base), hexchar)
  {
    LengthBounds(v, base);
  }
}
