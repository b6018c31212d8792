/** Printing a number into a buffer and parsing the buffer. */
module PrintedNumbers {
  import opened NumberText
  import opened NumberSyntax
  import opened NumberParser
  import opened BufferStreams

  lemma DigitsTerminated(v: nat, base: nat, hexchar: char)
    requires 2 <= base <= 16 && (hexchar == 'a' || hexchar == 'A')
    ensures Terminated(Digits(v, base, hexchar))
  {
    LengthBounds(v, base);
    DigitsNumeral(v, base, Length(v, base), hexchar);
    hide Length, DigitsFrom, Spacer;
    assert forall c: char :: DigitValue(c) < 99 ==> c != '\0';
  }

  /** A printed number contains no terminator. */
  lemma TextTerminated(v: nat, minus: bool, f: Format)
    requires Readable(f)
    ensures Terminated(Text(v, minus, SIZE_MAX, f))
  {
    var before, behind := TextParts(v, minus, f);
    DigitsTerminated(v, f.base, f.hexchar);
    hide Digits, Text, Length;
  }

  /** With room for the whole text, the buffer holds exactly the text: as wide as asked for, or as
      long as it has to be. What the parser reads back is the number, except for a zero with
      padding behind it. */
  method PrintAndParse(out: BufferStream, v: nat) returns (r: Option<nat>)
    requires out.Valid() && out.pos == 0 && Readable(out.Modifiers()) && v < UINT64_RANGE
    requires |Text(v, false, SIZE_MAX, out.Modifiers())| < out.bufptr.Length
    modifies out, out.bufptr
    ensures out.Valid() && out.Contents() == Text(v, false, SIZE_MAX, old(out.Modifiers()))
    ensures var n := Natural(v, false, SIZE_MAX, old(out.Modifiers()));
            |out.Contents()| == if old(out.width) > n then old(out.width) else n
    ensures r == if Blocked(v, false, old(out.Modifiers())) then None else Some(v)
  {
    hide Text, ParseUnsigned, Blocked, Natural, Length;
    ghost var f := out.Modifiers();
    out.WriteFillUnsigned(v, false, SIZE_MAX);
    assert "" + Text(v, false, SIZE_MAX, f) == Text(v, false, SIZE_MAX, f);
    UnsignedRoundTrip(v, f);
    TextTerminated(v, false, f);
    TextLength(v, false, SIZE_MAX, f);
    r := StringToUnsigned(out.bufptr[..out.pos]);
  }

  /** The same for signed numbers in decimal. */
  method PrintAndParseSigned(out: BufferStream, i: int) returns (r: Option<int>)
    requires out.Valid() && out.pos == 0 && Readable(out.Modifiers()) && out.base == 10
    requires -(LLONG_MAX as int) <= i <= LLONG_MAX
    requires |Text(if i < 0 then -i else i, i < 0, SIZE_MAX, out.Modifiers())| < out.bufptr.Length
    modifies out, out.bufptr
    ensures out.Valid() && out.Contents() == Text(if i < 0 then -i else i, i < 0, SIZE_MAX, old(out.Modifiers()))
    ensures var n := Natural(if i < 0 then -i else i, i < 0, SIZE_MAX, old(out.Modifiers()));
            |out.Contents()| == if old(out.width) > n then old(out.width) else n
    ensures r == if Blocked(if i < 0 then -i else i, i < 0, old(out.Modifiers())) then None else Some(i)
  {
    hide Text, ParseSigned, Blocked, Natural, Length;
    ghost var f := out.Modifiers();
    ghost var v: nat := if i < 0 then -i else i;
    out.WriteFillSigned(i, SIZE_MAX);
    assert "" + Text(v, i < 0, SIZE_MAX, f) == Text(v, i < 0, SIZE_MAX, f);
    SignedRoundTrip(i, f);
    TextTerminated(v, i < 0, f);
    TextLength(v, i < 0, SIZE_MAX, f);
    r := StringToSigned(out.bufptr[..out.pos]);
  }
}
