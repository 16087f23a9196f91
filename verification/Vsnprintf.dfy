/** vsnprintf of lib/vsprintf.c: the text of a whole format string, and its truncation to a
    buffer (sections 7.21.6.1 and 7.21.6.5 of ISO/IEC 9899:2011). */
module Vsnprintf {
  import opened Machine
  import opened Utf16
  import opened Output
  import opened Decimal
  import opened Format

  const SPACE: byte := ' ' as int
  const ZERO: byte := '0' as int

  function Copies(c: byte, n: int): seq<byte> {
    seq(Max(n, 0), i => c)
  }

  predicate IsSmall(conv: char) {
    conv == 'p' || conv == 'x'
  }

  /** The sign character of an integer conversion. */
  function SignText(d: Directive, conv: char, value: int): (t: seq<byte>)
    ensures |t| <= 1
  {
    if !IsSigned(conv) then []
    else if value < 0 then ['-' as int]
    else if d.flags.plus then ['+' as int]
    else if d.flags.space then [SPACE]
    else []
  }

  /** The digits of an integer conversion, extended to its precision.  The # flag of an octal
      conversion makes sure that the first character is a zero. */
  function DigitText(d: Directive, conv: char, magnitude: nat): seq<byte> {
    var digits := Text(Digits(BaseOf(conv), magnitude), IsSmall(conv));
    var least := if d.precision >= 0 then d.precision else if conv == 'p' then 8 else 1;
    var padded := Copies(ZERO, least - |digits|) + digits;
    if d.flags.special && conv == 'o' && (padded == [] || padded[0] != ZERO) then [ZERO] + padded else padded
  }

  /** The # flag puts 0x before hexadecimal digits.  By the source this happens for the value
      zero as well, unless there are no digits at all. */
  function RadixText(d: Directive, conv: char, digits: seq<byte>): seq<byte> {
    if d.flags.special && BaseOf(conv) == 16 && digits != [] then
      [ZERO, if IsSmall(conv) then 'x' as int else 'X' as int]
    else []
  }

  /** A mark and digits in a field: spaces on the right, zeros in between or spaces on the left. */
  function InField(left: bool, zero: bool, width: int, mark: seq<byte>, digits: seq<byte>): seq<byte> {
    var room := width - |mark| - |digits|;
    if left then mark + digits + Copies(SPACE, room)
    else if zero then mark + Copies(ZERO, room) + digits
    else Copies(SPACE, room) + mark + digits
  }

  /** Sign and radix mark of an integer conversion. */
  function NumberMark(d: Directive, conv: char, value: int): seq<byte> {
    SignText(d, conv, value) + RadixText(d, conv, DigitText(d, conv, Abs(value)))
  }

  function Abs(x: int): nat {
    if x < 0 then -x else x
  }

  /** The text of an integer conversion, padded to the width. */
  function NumberText(d: Directive, conv: char, value: int): seq<byte> {
    InField(d.flags.left, d.flags.zeropad && d.precision < 0, d.width,
            NumberMark(d, conv, value), DigitText(d, conv, Abs(value)))
  }

  /** Text padded with spaces to the width, which counts bytes. */
  function Pad(d: Directive, gs: seq<Glyph>): seq<Glyph> {
    var spaces := Repeat(SPACE, Max(d.width - Length(gs), 0));
    if d.flags.left then gs + spaces else spaces + gs
  }

  /** The bytes before the first NUL. */
  function UpToNul(bs: seq<byte>): (r: seq<byte>)
    ensures r <= bs
    ensures forall i :: 0 <= i < |r| ==> r[i] != 0
    ensures |r| < |bs| ==> bs[|r|] == 0
  {
    if bs == [] || bs[0] == 0 then [] else [bs[0]] + UpToNul(bs[1..])
  }

  const NULL_TEXT: seq<byte> := ['(' as int, 'n' as int, 'u' as int, 'l' as int, 'l' as int, ')' as int]

  function Limit(d: Directive): nat {
    if d.precision < 0 then INT_MAX else d.precision
  }

  /** The characters of %c and %s, before padding. */
  function StringGlyphs(d: Directive, conv: char, arg: Arg): seq<Glyph> {
    if conv == 'c' then
      if d.qualifier == L then Glyphs(Taken(Words([Unsigned(0x1_0000, arg.Bits()), 0]), INT_MAX))
      else Singles([Unsigned(0x100, arg.Bits())])
    else
      match arg
      case Narrow(_, bytes) =>
        if d.qualifier == L then [] else Singles(UpToNul(bytes)[..Min(|UpToNul(bytes)|, Limit(d))])
      case Wide(_, words) =>
        if d.qualifier == L then Glyphs(Taken(Words(words), Limit(d))) else []
      case Word(_) =>
        // only a null pointer is meaningful here
        if 0 <= d.precision < 6 then [] else Singles(NULL_TEXT)
  }

  /** The characters of one conversion. */
  function Conversion(d: Directive, conv: char, arg: Arg): seq<Glyph>
    requires IsConversion(conv)
  {
    if IsNumeric(conv) then Singles(NumberText(d, conv, NumberArg(conv, d.qualifier, arg)))
    else Pad(d, StringGlyphs(d, conv, arg))
  }

  /** What the format asks for at one position: a literal character, a conversion, or nothing
      valid; with the position and the argument that come next. */
  datatype Round =
    | Literal(c: byte, next: nat, k: nat)
    | Directed(d: Directive, conv: char, arg: Arg, next: nat, k: nat)
    | Invalid

  function NextRound(fmt: CString, i: nat, args: seq<Arg>, k: nat): (r: Round)
    requires i < |fmt|
    ensures Advances(r, i, |fmt|) && (r.Directed? ==> IsConversion(r.conv))
  {
    if fmt[i] != '%' then Literal(fmt[i] as int, i + 1, k)
    else if At(fmt, i + 1) == '%' then Literal('%' as int, i + 2, k)
    else
      var d := Parse(fmt, i + 1, args, k);
      var conv := At(fmt, d.at);
      if IsConversion(conv) then Directed(d, conv, ArgAt(args, d.k), d.at + 1, d.k + 1) else Invalid
  }

  predicate Advances(r: Round, i: nat, n: nat) {
    !r.Invalid? ==> i < r.next <= n
  }

  type Reader = (nat, nat) -> Round
  type Converter = (Directive, char, Arg) -> seq<Glyph>

  function RoundGlyphs(f: Converter, r: Round): seq<Glyph>
    requires !r.Invalid?
  {
    if r.Literal? then [[r.c]] else f(r.d, r.conv, r.arg)
  }

  /** The unbounded rendering of a format of n characters from position i on, when g reads it and
      f renders the conversions.  An invalid conversion ends it. */
  function RenderWith(f: Converter, g: Reader, n: nat, i: nat, k: nat): seq<Glyph>
    decreases n - i
  {
    if i >= n || g(i, k).Invalid? || !Advances(g(i, k), i, n) then []
    else RoundGlyphs(f, g(i, k)) + RenderWith(f, g, n, g(i, k).next, g(i, k).k)
  }

  function Convert(): Converter {
    (d, conv, arg) => if IsConversion(conv) then Conversion(d, conv, arg) else []
  }

  function Read(fmt: CString, args: seq<Arg>): Reader {
    (i: nat, k: nat) => if i < |fmt| then NextRound(fmt, i, args, k) else Invalid
  }

  /** The unbounded rendering of a format. */
  function Render(fmt: CString, args: seq<Arg>): seq<Glyph> {
    RenderWith(Convert(), Read(fmt, args), |fmt|, 0, 0)
  }

  lemma SinglesConcat(a: seq<byte>, b: seq<byte>)
    ensures Singles(a + b) == Singles(a) + Singles(b)
  {
  }

  lemma SinglesCopies(c: byte, n: int)
    ensures Singles(Copies(c, n)) == Repeat(c, Max(n, 0))
  {
  }

  /** The pieces that the output code puts out, one after the other. */
  function Field(left: bool, spaces: int, mark: seq<byte>, zeros: int, body: seq<Glyph>): seq<Glyph> {
    var padding := Repeat(SPACE, Max(spaces, 0));
    (if left then [] else padding) + Singles(mark) + Repeat(ZERO, Max(zeros, 0)) + body + (if left then padding else [])
  }

  /** What a string argument points to. */
  datatype Payload = Bytes8(bytes: seq<byte>) | Words16(words: seq<u16>, room: nat) {
    predicate Valid() {
      Words16? ==> Readable(words, room)
    }

    function Len(): nat {
      if Bytes8? then |bytes| else Size(Words(words), room)
    }

    function Characters(): seq<Glyph> {
      if Bytes8? then Singles(bytes) else Glyphs(Taken(Words(words), room))
    }
  }

  /** Sign and radix mark. */
  function Mark(sign: seq<byte>, radix: bool, upper: bool): seq<byte> {
    sign + if radix then [ZERO, if upper then 'X' as int else 'x' as int] else []
  }

  /** Sign and radix mark of a field. */
  method PutMark(buf: array<byte>, size: nat, pos: nat, sign: seq<byte>, radix: bool, upper: bool,
                 ghost more: seq<Glyph>)
    returns (next: nat)
    requires size <= buf.Length
    requires |sign| <= 1
    modifies buf
    ensures Puts(old(buf[..]), pos, buf[..], next, size, Singles(Mark(sign, radix, upper)), more)
  {
    next := pos;
    ghost var rest := Singles(Mark(sign, radix, upper)) + more;
    if sign != [] {
      next := PutFirst(buf, size, next, sign[0], rest);
      rest := rest[1..];
    }
    if radix {
      next := PutFirst(buf, size, next, ZERO, rest);
      rest := rest[1..];
      next := PutFirst(buf, size, next, if upper then 'X' as int else 'x' as int, rest);
      rest := rest[1..];
    }
    assert rest == more;
  }

  method PutBody(buf: array<byte>, size: nat, pos: nat, p: Payload, len: nat, ghost more: seq<Glyph>)
    returns (next: nat)
    requires size <= buf.Length
    requires p.Valid() && len == p.Len()
    modifies buf
    ensures Puts(old(buf[..]), pos, buf[..], next, size, p.Characters(), more)
  {
    match p {
      case Bytes8(bytes) => next := PutText(buf, size, pos, bytes, more);
      case Words16(words, room) => next := PutWide(buf, size, pos, words, len, room, more);
    }
  }

  /** The code after the label `output`: padding, sign, radix mark, zeros and body. */
  method PutField(buf: array<byte>, size: nat, pos: nat, left: bool, width: int, sign: seq<byte>, radix: bool,
                  upper: bool, precision: int, p: Payload, len: nat, ghost more: seq<Glyph>)
    returns (next: nat)
    requires size <= buf.Length
    requires |sign| <= 1
    requires p.Valid() && len == p.Len()
    modifies buf
    ensures Puts(old(buf[..]), pos, buf[..], next, size,
                 Field(left, width - precision, Mark(sign, radix, upper), precision - len, p.Characters()), more)
  {
    next := pos;
    var fieldWidth := width - precision;
    ghost var lead := if left then [] else Repeat(SPACE, Max(fieldWidth, 0));
    ghost var trail := if left then Repeat(SPACE, Max(fieldWidth, 0)) else [];
    ghost var rest3 := trail + more;
    ghost var rest2 := p.Characters() + rest3;
    ghost var rest1 := Repeat(ZERO, Max(precision - len, 0)) + rest2;
    ghost var rest0 := Singles(Mark(sign, radix, upper)) + rest1;
    FieldPieces(lead, Singles(Mark(sign, radix, upper)), Repeat(ZERO, Max(precision - len, 0)), p.Characters(),
                trail, more);
    if !left {
      next := PutRepeated(buf, size, next, SPACE, fieldWidth, rest0);
      fieldWidth := Min(fieldWidth, 0) - 1;
    } else {
      assert lead + rest0 == rest0;
    }
    next := PutMark(buf, size, next, sign, radix, upper, rest1);
    next := PutRepeated(buf, size, next, ZERO, precision - len, rest2);
    next := PutBody(buf, size, next, p, len, rest3);
    next := PutRepeated(buf, size, next, SPACE, fieldWidth, more);
  }

  lemma FieldPieces(a: seq<Glyph>, b: seq<Glyph>, c: seq<Glyph>, d: seq<Glyph>, e: seq<Glyph>, more: seq<Glyph>)
    ensures a + b + c + d + e + more == a + (b + (c + (d + (e + more))))
  {
  }

  /** What the code leaves in `precision`, before zero padding, for `len` digits. */
  function FinalPrecision(d: Directive, conv: char, len: nat): nat {
    var p := if d.precision >= 0 then d.precision else if conv == 'p' then 8 else 1;
    var p := Max(p, len);
    if d.flags.special && conv == 'o' && p == len then p + 1 else p
  }

  /** Zeros in front of digits, at least `least` characters together, and one zero more for %#o. */
  lemma DigitTextShape(d: Directive, conv: char, magnitude: nat)
    ensures
      var digits := Text(Digits(BaseOf(conv), magnitude), IsSmall(conv));
      var p := FinalPrecision(d, conv, |digits|);
      && |digits| <= p == |DigitText(d, conv, magnitude)|
      && DigitText(d, conv, magnitude) == Copies(ZERO, p - |digits|) + digits
  {
    var digits := Text(Digits(BaseOf(conv), magnitude), IsSmall(conv));
    NoLeadingZero(conv, magnitude);
    var least := if d.precision >= 0 then d.precision else if conv == 'p' then 8 else 1;
    PadZeros(digits, least);
    Padded(d, conv, magnitude, digits, least, Copies(ZERO, least - |digits|) + digits);
  }

  lemma NoLeadingZero(conv: char, magnitude: nat)
    ensures
      var digits := Text(Digits(BaseOf(conv), magnitude), IsSmall(conv));
      digits != [] ==> digits[0] != ZERO
  {
    var ds := Digits(BaseOf(conv), magnitude);
    DigitsDenote(BaseOf(conv), magnitude);
    assert ds != [] ==> Text(ds, IsSmall(conv))[0] == DigitChar(ds[0], IsSmall(conv)) != ZERO;
  }

  lemma Padded(d: Directive, conv: char, magnitude: nat, digits: seq<byte>, least: nat, padded: seq<byte>)
    requires digits == Text(Digits(BaseOf(conv), magnitude), IsSmall(conv))
    requires least == if d.precision >= 0 then d.precision else if conv == 'p' then 8 else 1
    requires padded == Copies(ZERO, least - |digits|) + digits
    ensures
      DigitText(d, conv, magnitude)
      == if d.flags.special && conv == 'o' && (padded == [] || padded[0] != ZERO) then [ZERO] + padded else padded
  {
  }

  lemma PadZeros(digits: seq<byte>, least: nat)
    requires digits != [] ==> digits[0] != ZERO
    ensures
      var padded := Copies(ZERO, least - |digits|) + digits;
      && |padded| == Max(least, |digits|)
      && padded == Copies(ZERO, Max(least, |digits|) - |digits|) + digits
      && (padded == [] || padded[0] != ZERO <==> least <= |digits|)
      && (least <= |digits| ==> [ZERO] + padded == Copies(ZERO, 1) + digits)
  {
    if least <= |digits| {
      assert Copies(ZERO, least - |digits|) + digits == digits;
      assert Copies(ZERO, 1) == [ZERO];
    }
  }

  /** A field whose body is narrow text. */
  function FieldBytes(left: bool, spaces: int, mark: seq<byte>, zeros: int, digits: seq<byte>): seq<byte> {
    var padding := Copies(SPACE, spaces);
    (if left then [] else padding) + mark + (Copies(ZERO, zeros) + digits) + (if left then padding else [])
  }

  lemma FieldText(left: bool, spaces: int, mark: seq<byte>, zeros: int, digits: seq<byte>)
    ensures Field(left, spaces, mark, zeros, Singles(digits)) == Singles(FieldBytes(left, spaces, mark, zeros, digits))
  {
    var padding, body := Copies(SPACE, spaces), Copies(ZERO, zeros) + digits;
    var lead, trail := if left then [] else padding, if left then padding else [];
    SinglesCopies(SPACE, spaces);
    SinglesCopies(ZERO, zeros);
    SinglesConcat(Copies(ZERO, zeros), digits);
    SinglesConcat(lead, mark);
    SinglesConcat(lead + mark, body);
    SinglesConcat(lead + mark + body, trail);
    Associate(Singles(lead) + Singles(mark), Singles(Copies(ZERO, zeros)), Singles(digits));
  }

  lemma CopiesAdd(c: byte, a: int, b: int)
    requires a >= 0 && b >= 0
    ensures Copies(c, a) + Copies(c, b) == Copies(c, a + b)
  {
  }

  /** The source's way to fill a field of the given width around a mark and digits; `text` are the
      digits with the zeros that the precision asks for. */
  lemma Layout(left: bool, zero: bool, width: int, p: int, precision: int, mark: seq<byte>, digits: seq<byte>,
               text: seq<byte>)
    requires p >= |digits| && text == Copies(ZERO, p - |digits|) + digits
    requires precision == if zero && !left && width > p then width else p
    ensures
      FieldBytes(left, width - precision, mark, precision - |digits|, digits)
      == InField(left, zero, width + |mark|, mark, text)
  {
    if left {
      assert [] + mark == mark;
    } else if zero {
      var fill := Copies(ZERO, width - p);
      CopiesAdd(ZERO, Max(width - p, 0), p - |digits|);
      Associate(fill, Copies(ZERO, p - |digits|), digits);
      Associate(mark, fill, text);
      assert Copies(SPACE, width - precision) == [];
      assert [] + mark == mark;
    }
  }

  lemma NumberTextIs(d: Directive, conv: char, value: int, mark: seq<byte>, text: seq<byte>, zero: bool)
    requires mark == NumberMark(d, conv, value) && text == DigitText(d, conv, Abs(value))
    requires zero == (d.flags.zeropad && d.precision < 0)
    ensures NumberText(d, conv, value) == InField(d.flags.left, zero, d.width, mark, text)
  {
  }

  /** The width and precision arithmetic of the source yields the text of the field. */
  lemma FieldInField(left: bool, zero: bool, total: int, width: int, p: int, precision: int, mark: seq<byte>,
                     digits: seq<byte>, text: seq<byte>)
    requires p >= |digits| && text == Copies(ZERO, p - |digits|) + digits && width + |mark| == total
    requires precision == if zero && !left && width > p then width else p
    ensures
      Field(left, width - precision, mark, precision - |digits|, Singles(digits))
      == Singles(InField(left, zero, total, mark, text))
  {
    var spaces, zeros := width - precision, precision - |digits|;
    FieldText(left, spaces, mark, zeros, digits);
    var bytes := FieldBytes(left, spaces, mark, zeros, digits);
    assert bytes == InField(left, zero, total, mark, text) by {
      Layout(left, zero, width, p, precision, mark, digits, text);
    }
  }

  /** get_sign: the sign character, and the magnitude that is left to print. */
  method GetSign(d: Directive, conv: char, num: int) returns (sign: seq<byte>, magnitude: nat)
    requires IsSigned(conv) || num >= 0
    ensures sign == SignText(d, conv, num) && magnitude == Abs(num)
  {
    magnitude := Abs(num);
    if !IsSigned(conv) {
      return [], magnitude;
    }
    if num < 0 {
      return ['-' as int], magnitude;
    }
    if d.flags.plus {
      return ['+' as int], magnitude;
    }
    if d.flags.space {
      return [SPACE], magnitude;
    }
    sign := [];
  }

  predicate Radix(d: Directive, conv: char, len: nat) {
    d.flags.special && BaseOf(conv) == 16 && FinalPrecision(d, conv, len) > 0
  }

  /** The width that is left for padding and digits. */
  function FinalWidth(d: Directive, conv: char, signed: nat, len: nat): int {
    d.width - signed - (if Radix(d, conv, len) then 2 else 0)
  }

  /** The precision after zero padding. */
  function PaddedPrecision(d: Directive, conv: char, signed: nat, len: nat): int {
    var p, width := FinalPrecision(d, conv, len), FinalWidth(d, conv, signed, len);
    if d.flags.zeropad && d.precision < 0 && !d.flags.left && width > p then width else p
  }

  /** What the code puts out for an integer conversion. */
  function NumberGlyphs(d: Directive, conv: char, sign: seq<byte>, digits: seq<byte>): seq<Glyph> {
    var width, precision := FinalWidth(d, conv, |sign|, |digits|), PaddedPrecision(d, conv, |sign|, |digits|);
    Field(d.flags.left, width - precision, MarkFor(d, conv, sign, |digits|), precision - |digits|, Singles(digits))
  }

  function MarkFor(d: Directive, conv: char, sign: seq<byte>, len: nat): seq<byte> {
    Mark(sign, Radix(d, conv, len), !IsSmall(conv))
  }

  /** The mark that the source puts out. */
  lemma MarkIsNumberMark(d: Directive, conv: char, value: int, len: nat)
    requires FinalPrecision(d, conv, len) == |DigitText(d, conv, Abs(value))|
    ensures MarkFor(d, conv, SignText(d, conv, value), len) == NumberMark(d, conv, value)
    ensures FinalWidth(d, conv, |SignText(d, conv, value)|, len) + |NumberMark(d, conv, value)| == d.width
  {
  }

  /** Lines 450-485: the width that is left, the precision, and whether 0x is printed. */
  method NumberLayout(d: Directive, conv: char, signed: nat, len: nat) returns (width: int, precision: int, radix: bool)
    requires signed <= 1
    ensures radix == Radix(d, conv, len)
    ensures width == FinalWidth(d, conv, signed, len)
    ensures precision == PaddedPrecision(d, conv, signed, len)
  {
    width, precision := d.width, d.precision;
    var special, zeropad := d.flags.special, d.flags.zeropad;
    if d.flags.left {
      zeropad := false;
    }
    if precision >= 0 {
      zeropad := false;
    }
    if conv == 'p' && precision < 0 {
      precision := 8;
    }
    if signed > 0 {
      width := width - 1;
    }
    if precision < 0 {
      precision := 1;
    }
    if precision < len {
      precision := len;
    }
    if BaseOf(conv) == 10 {
      special := false;
    }
    if special {
      if BaseOf(conv) == 8 && precision == len {
        precision := precision + 1;
      }
      if BaseOf(conv) == 16 && precision > 0 {
        width := width - 2;
      } else {
        special := false;
      }
    }
    if zeropad && width > precision {
      precision := width;
    }
    radix := special;
  }

  lemma NumberGlyphsAre(d: Directive, conv: char, sign: seq<byte>, digits: seq<byte>, width: int, precision: int,
                        mark: seq<byte>)
    requires width == FinalWidth(d, conv, |sign|, |digits|) && precision == PaddedPrecision(d, conv, |sign|, |digits|)
    requires mark == MarkFor(d, conv, sign, |digits|)
    ensures
      NumberGlyphs(d, conv, sign, digits)
      == Field(d.flags.left, width - precision, mark, precision - |digits|, Singles(digits))
  {
  }

  /** The numbers that the code computes, and the text that the digits end up in. */
  lemma NumberParts(d: Directive, conv: char, num: int, digits: seq<byte>, sign: seq<byte>, mark: seq<byte>,
                    text: seq<byte>)
    requires digits == Text(Digits(BaseOf(conv), Abs(num)), IsSmall(conv))
    requires sign == SignText(d, conv, num) && mark == NumberMark(d, conv, num) && text == DigitText(d, conv, Abs(num))
    ensures
      var p := FinalPrecision(d, conv, |digits|);
      && p >= |digits| && text == Copies(ZERO, p - |digits|) + digits
      && FinalWidth(d, conv, |sign|, |digits|) + |mark| == d.width
      && MarkFor(d, conv, sign, |digits|) == mark
  {
    DigitTextShape(d, conv, Abs(num));
    MarkIsNumberMark(d, conv, num, |digits|);
  }

  lemma NumberGlyphsAreText(d: Directive, conv: char, num: int, digits: seq<byte>)
    requires digits == Text(Digits(BaseOf(conv), Abs(num)), IsSmall(conv))
    ensures NumberGlyphs(d, conv, SignText(d, conv, num), digits) == Singles(NumberText(d, conv, num))
  {
    var sign, mark, text := SignText(d, conv, num), NumberMark(d, conv, num), DigitText(d, conv, Abs(num));
    NumberParts(d, conv, num, digits, sign, mark, text);
    var width, precision := FinalWidth(d, conv, |sign|, |digits|), PaddedPrecision(d, conv, |sign|, |digits|);
    var zero := d.flags.zeropad && d.precision < 0;
    FieldInField(d.flags.left, zero, d.width, width, FinalPrecision(d, conv, |digits|), precision, mark, digits, text);
    NumberTextIs(d, conv, num, mark, text, zero);
    NumberGlyphsAre(d, conv, sign, digits, width, precision, mark);
  }

  /** Puts out the digits of an integer conversion, with all that surrounds them. */
  method PutDigits(buf: array<byte>, size: nat, pos: nat, digits: seq<byte>, d: Directive, conv: char, sign: seq<byte>,
                   ghost more: seq<Glyph>)
    returns (next: nat)
    requires size <= buf.Length
    requires |sign| <= 1
    modifies buf
    ensures Puts(old(buf[..]), pos, buf[..], next, size, NumberGlyphs(d, conv, sign, digits), more)
  {
    var width, precision, radix := NumberLayout(d, conv, |sign|, |digits|);
    assert NumberGlyphs(d, conv, sign, digits)
        == Field(d.flags.left, width - precision, Mark(sign, radix, !IsSmall(conv)), precision - |digits|,
                 Bytes8(digits).Characters());
    next := PutField(buf, size, pos, d.flags.left, width, sign, radix, !IsSmall(conv), precision,
                     Bytes8(digits), |digits|, more);
  }

  /** The integer conversions, from the fetched argument to the finished field. */
  method PutNumber(buf: array<byte>, size: nat, pos: nat, tmp: array<byte>, d: Directive, conv: char, num: int,
                   ghost more: seq<Glyph>)
    returns (next: nat)
    requires size <= buf.Length
    requires tmp != buf && tmp.Length == 22
    requires -(TWO64 as int) < num < TWO64 && (IsSigned(conv) || num >= 0)
    modifies buf, tmp
    ensures Puts(old(buf[..]), pos, buf[..], next, size, Singles(NumberText(d, conv, num)), more)
  {
    ghost var before := buf[..];
    var sign, magnitude := GetSign(d, conv, num);
    var s := Number(tmp, 22, magnitude, BaseOf(conv), IsSmall(conv));
    assert buf[..] == before;
    var digits := tmp[s..22];
    NumberGlyphsAreText(d, conv, num, digits);
    next := PutDigits(buf, size, pos, digits, d, conv, sign, more);
  }

  /** Characters put out one after the other are the UTF-8 form of the text. */
  lemma {:induction false} GlyphsLength(cs: seq<nat>)
    requires AllScalar(cs)
    ensures Length(Glyphs(cs)) == |Encode(cs)|
  {
    if cs != [] {
      GlyphsLength(cs[1..]);
      assert Glyphs(cs)[1..] == Glyphs(cs[1..]);
    }
  }

  /** The measured length of a payload is the length that its characters have. */
  lemma PayloadLength(p: Payload)
    ensures Length(p.Characters()) == p.Len()
  {
    match p {
      case Bytes8(bytes) => KeptSingles(Singles(bytes), 0);
      case Words16(words, room) =>
        GlyphsLength(Taken(Words(words), room));
        SizeIsEncoded(Words(words), room);
    }
  }

  lemma {:induction false} WordsTerminated(ws: seq<u16>)
    ensures Words(ws + [0]) == Words(ws)
  {
    if ws != [] && ws[0] != 0 {
      WordsTerminated(ws[1..]);
      assert (ws + [0])[1..] == ws[1..] + [0];
    }
  }

  lemma PlainField(left: bool, spaces: int, body: seq<Glyph>)
    ensures
      var padding := Repeat(SPACE, Max(spaces, 0));
      Field(left, spaces, [], 0, body) == if left then body + padding else padding + body
  {
    var padding := Repeat(SPACE, Max(spaces, 0));
    assert Singles([]) == [] && Repeat(ZERO, 0) == [];
    if left {
      assert [] + [] + [] + body == body;
    } else {
      assert padding + [] + [] + body + [] == padding + body;
    }
  }

  lemma FieldIsPad(d: Directive, p: Payload, len: nat)
    requires len == p.Len()
    ensures
      Field(d.flags.left, d.width - len, Mark([], false, false), len - len, p.Characters()) == Pad(d, p.Characters())
  {
    PayloadLength(p);
    assert Mark([], false, false) == [];
    PlainField(d.flags.left, d.width - len, p.Characters());
  }

  /** The argument of %c and %s, measured. */
  method FetchString(d: Directive, conv: char, arg: Arg) returns (p: Payload, len: nat)
    ensures p.Valid() && len == p.Len() && p.Characters() == StringGlyphs(d, conv, arg)
  {
    if conv == 'c' {
      if d.qualifier == L {
        p := Words16([Unsigned(0x1_0000, arg.Bits()), 0], INT_MAX);
        len := Utf8Length(p.words, p.room);
      } else {
        p := Bytes8([Unsigned(0x100, arg.Bits())]);
        len := 1;
      }
    } else {
      match arg {
        case Narrow(_, bytes) =>
          var s := UpToNul(bytes);
          p := Bytes8(if d.qualifier == L then [] else s[..Min(|s|, Limit(d))]);
          len := |p.bytes|;
        case Wide(_, words) =>
          if d.qualifier == L {
            WordsTerminated(words);
            p := Words16(words + [0], Limit(d));
            len := Utf8Length(p.words, p.room);
          } else {
            p := Bytes8([]);
            len := 0;
          }
        case Word(_) =>
          p := Bytes8(if 0 <= d.precision < 6 then [] else NULL_TEXT);
          len := |p.bytes|;
      }
    }
  }

  method PutString(buf: array<byte>, size: nat, pos: nat, d: Directive, conv: char, arg: Arg,
                   ghost more: seq<Glyph>)
    returns (next: nat)
    requires size <= buf.Length
    modifies buf
    ensures Puts(old(buf[..]), pos, buf[..], next, size, Pad(d, StringGlyphs(d, conv, arg)), more)
  {
    var p, len := FetchString(d, conv, arg);
    FieldIsPad(d, p, len);
    next := PutField(buf, size, pos, d.flags.left, d.width, [], false, false, len, p, len, more);
  }

  /** One conversion, after its specification has been parsed. */
  method PutConversion(buf: array<byte>, size: nat, pos: nat, tmp: array<byte>, d: Directive, conv: char, arg: Arg,
                   ghost more: seq<Glyph>)
    returns (next: nat)
    requires size <= buf.Length
    requires tmp != buf && tmp.Length == 22
    requires IsConversion(conv)
    modifies buf, tmp
    ensures Puts(old(buf[..]), pos, buf[..], next, size, Conversion(d, conv, arg), more)
  {
    if IsNumeric(conv) {
      next := PutNumber(buf, size, pos, tmp, d, conv, NumberArg(conv, d.qualifier, arg), more);
    } else {
      next := PutString(buf, size, pos, d, conv, arg, more);
    }
  }

  /** How the rendering unfolds. */
  lemma RenderRound(f: Converter, g: Reader, n: nat, i: nat, k: nat, r: Round)
    requires i < n && g(i, k) == r && Advances(r, i, n)
    ensures RenderWith(f, g, n, i, k) == if r.Invalid? then [] else RoundGlyphs(f, r) + RenderWith(f, g, n, r.next, r.k)
  {
  }

  /** What is left to put out, and that the buffer and the count will come out right. */
  ghost predicate Onward(b: seq<byte>, size: nat, pos: nat, rest: seq<Glyph>, final: seq<byte>, total: nat) {
    Emit(b, size, pos, rest) == final && pos + Length(rest) == total
  }

  lemma PutsOnward(b: seq<byte>, pos: nat, c: seq<byte>, next: nat, size: nat, gs: seq<Glyph>, all: seq<Glyph>,
                   rest: seq<Glyph>, final: seq<byte>, total: nat)
    requires Puts(b, pos, c, next, size, gs, rest) && all == gs + rest
    requires Onward(b, size, pos, all, final, total)
    ensures Onward(c, size, next, rest, final, total)
  {
    BytesAdd(gs, rest);
  }

  /** A literal character. */
  method PutLiteral(buf: array<byte>, size: nat, pos: nat, c: byte, ghost all: seq<Glyph>, ghost final: seq<byte>,
                    ghost total: nat)
    returns (next: nat)
    requires size <= buf.Length && all != [] && all[0] == [c]
    requires Onward(buf[..], size, pos, all, final, total)
    modifies buf
    ensures Onward(buf[..], size, next, all[1..], final, total)
  {
    next := PutFirst(buf, size, pos, c, all);
  }

  /** A conversion. */
  method PutDirective(buf: array<byte>, size: nat, pos: nat, tmp: array<byte>, d: Directive, conv: char, arg: Arg,
                      ghost all: seq<Glyph>, ghost rest: seq<Glyph>, ghost final: seq<byte>, ghost total: nat)
    returns (next: nat)
    requires size <= buf.Length && tmp != buf && tmp.Length == 22
    requires IsConversion(conv) && all == Conversion(d, conv, arg) + rest
    requires Onward(buf[..], size, pos, all, final, total)
    modifies buf, tmp
    ensures Onward(buf[..], size, next, rest, final, total)
  {
    ghost var before := buf[..];
    next := PutConversion(buf, size, pos, tmp, d, conv, arg, rest);
    PutsOnward(before, pos, buf[..], next, size, Conversion(d, conv, arg), all, rest, final, total);
  }

  /** Lines 339-443 as far as they read the format: what comes next. */
  method ReadRound(fmt: CString, i: nat, args: seq<Arg>, k: nat) returns (r: Round)
    requires i < |fmt|
    ensures r == NextRound(fmt, i, args, k)
  {
    if fmt[i] != '%' {
      return Literal(fmt[i] as int, i + 1, k);
    }
    if At(fmt, i + 1) == '%' {
      return Literal('%' as int, i + 2, k);
    }
    var d := ParseDirective(fmt, i + 1, args, k);
    var conv := At(fmt, d.at);
    r := if IsConversion(conv) then Directed(d, conv, ArgAt(args, d.k), d.at + 1, d.k + 1) else Invalid;
  }

  /** One round of the format loop: a literal character or a conversion. */
  method PutRound(buf: array<byte>, size: nat, pos: nat, tmp: array<byte>, r: Round, ghost all: seq<Glyph>,
                  ghost rest: seq<Glyph>, ghost final: seq<byte>, ghost total: nat) returns (next: nat)
    requires size <= buf.Length
    requires tmp != buf && tmp.Length == 22
    requires !r.Invalid? && (r.Directed? ==> IsConversion(r.conv))
    requires all == RoundGlyphs(Convert(), r) + rest
    requires Onward(buf[..], size, pos, all, final, total)
    modifies buf, tmp
    ensures Onward(buf[..], size, next, rest, final, total)
  {
    if r.Literal? {
      assert all[1..] == rest;
      next := PutLiteral(buf, size, pos, r.c, all, final, total);
    } else {
      next := PutDirective(buf, size, pos, tmp, r.d, r.conv, r.arg, all, rest, final, total);
    }
  }

  /** The format loop. */
  method PutAll(buf: array<byte>, size: nat, fmt: CString, args: seq<Arg>) returns (pos: nat)
    requires size <= buf.Length
    modifies buf
    ensures buf[..] == Emit(old(buf[..]), size, 0, Render(fmt, args))
    ensures pos == Length(Render(fmt, args))
  {
    ghost var f, g := Convert(), Read(fmt, args);
    ghost var rest: seq<Glyph> := RenderWith(f, g, |fmt|, 0, 0);
    ghost var final, total := Emit(buf[..], size, 0, rest), Length(rest);
    var tmp := new byte[22];
    var i: nat, k: nat := 0, 0;
    pos := 0;
    while i < |fmt|
      invariant i <= |fmt| && fresh(tmp) && tmp.Length == 22
      invariant rest == RenderWith(f, g, |fmt|, i, k) && Onward(buf[..], size, pos, rest, final, total)
      decreases |fmt| - i
    {
      var r := ReadRound(fmt, i, args, k);
      RenderRound(f, g, |fmt|, i, k, r);
      if r.Invalid? {
        break;
      }
      ghost var more := RenderWith(f, g, |fmt|, r.next, r.k);
      pos := PutRound(buf, size, pos, tmp, r, rest, more, final, total);
      i, k, rest := r.next, r.k, more;
    }
    assert rest == [];
  }

  /** vsnprintf: the result is the length of the unbounded rendering, whatever the size.  A
      buffer with room for at least one byte ends up with the longest run of whole characters
      that fits, then a NUL; nothing outside the first `size` bytes, and nothing behind the
      final NUL's place, is written. */
  method Vsnprintf(buf: array<byte>, size: nat, fmt: CString, args: seq<Arg>) returns (pos: nat)
    requires size <= buf.Length
    modifies buf
    ensures pos == Length(Render(fmt, args))
    ensures
      var gs := Render(fmt, args);
      var k := Kept(gs, size);
      size > 0 ==> k < size && k <= |Bytes(gs)| && buf[..k] == Bytes(gs)[..k] && buf[k] == 0
    ensures forall i :: size <= i < buf.Length ==> buf[i] == old(buf[i])
    ensures forall i :: pos < i < buf.Length ==> buf[i] == old(buf[i])
  {
    ghost var gs := Render(fmt, args);
    EmitHolds(buf[..], size, gs);
    KeptBounds(gs, size);
    pos := PutAll(buf, size, fmt, args);
    if size > 0 {
      buf[Min(pos, size - 1)] := 0;
    }
  }
}
