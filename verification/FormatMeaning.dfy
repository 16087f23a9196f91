/** What a format prints, said without the functions that print it: literal text, signs, digits, padding
    and strings (section 7.21.6.1 of ISO/IEC 9899:2011). */
module FormatMeaning {
  import opened Machine
  import opened Utf16
  import opened Output
  import opened Decimal
  import opened Format
  import opened Vsnprintf
  import opened FormatText

  /** The characters put out are those of s, one byte each. */
  predicate Prints(gs: seq<Glyph>, s: CString) {
    |gs| == |s| && forall i :: 0 <= i < |s| ==> gs[i] == [s[i] as int]
  }

  // ---------- literal text

  /** How one character is written. */
  function Doubled(c: char): string {
    if c == '%' then "%%" else [c]
  }

  /** How a text is written in a format: every percent sign twice. */
  function Escaped(s: string): string {
    if s == "" then "" else Doubled(s[0]) + Escaped(s[1..])
  }

  lemma StandsParts(fmt: CString, i: nat, a: string, b: string)
    requires Stands(fmt, i, a + b)
    ensures Stands(fmt, i, a) && Stands(fmt, i + |a|, b)
  {
    var text := a + b;
    forall j | 0 <= j < |a| ensures fmt[i + j] == a[j] {
      assert text[j] == a[j];
    }
    forall j | 0 <= j < |b| ensures fmt[i + |a| + j] == b[j] {
      assert fmt[i + (|a| + j)] == text[|a| + j];
    }
  }

  /** What the reader makes of a character that stands for itself. */
  ghost predicate ReadsLiterals(g: Reader, fmt: CString) {
    forall c: char, i: nat, k: nat ::
      c != '\0' && Stands(fmt, i, Doubled(c)) ==> g(i, k) == Literal(fmt[i] as int, i + |Doubled(c)|, k)
  }

  lemma LiteralsAreRead(fmt: CString, args: seq<Arg>)
    ensures ReadsLiterals(Read(fmt, args), fmt)
  {
    forall c: char, i: nat, k: nat | c != '\0' && Stands(fmt, i, Doubled(c))
      ensures Read(fmt, args)(i, k) == Literal(fmt[i] as int, i + |Doubled(c)|, k)
    {
      assert fmt[i + 0] == Doubled(c)[0];
      if c == '%' {
        assert fmt[i + 1] == Doubled(c)[1];
      }
    }
  }

  lemma LiteralRound(g: Reader, fmt: CString, i: nat, k: nat, c: char, j: nat)
    requires ReadsLiterals(g, fmt) && Stands(fmt, i, Doubled(c)) && 0 < c as int < 256 && j == i + |Doubled(c)|
    ensures i < j <= |fmt| && g(i, k) == Literal(c as int, j, k)
  {
    assert fmt[i + 0] == Doubled(c)[0] == c;
  }

  lemma LiteralPrints(f: Converter, g: Reader, fmt: CString, i: nat, k: nat, c: char, j: nat, more: seq<Glyph>)
    requires ReadsLiterals(g, fmt) && Stands(fmt, i, Doubled(c)) && 0 < c as int < 256 && j == i + |Doubled(c)|
    requires more == RenderWith(f, g, |fmt|, j, k)
    ensures RenderWith(f, g, |fmt|, i, k) == [[c as int]] + more
  {
    LiteralRound(g, fmt, i, k, c, j);
    LiteralFirst(f, g, |fmt|, i, k, c as int, j, more);
  }

  lemma LiteralFirst(f: Converter, g: Reader, n: nat, i: nat, k: nat, c: byte, j: nat, more: seq<Glyph>)
    requires i < j <= n && g(i, k) == Literal(c, j, k) && more == RenderWith(f, g, n, j, k)
    ensures RenderWith(f, g, n, i, k) == [[c]] + more
  {
    RenderRound(f, g, n, i, k, Literal(c, j, k));
  }

  lemma EscapedFirst(s: string)
    requires s != ""
    ensures Escaped(s) == Doubled(s[0]) + Escaped(s[1..])
  {
  }

  lemma Prefixed(c: byte, tail: seq<Glyph>, s: CString, all: seq<Glyph>, mid: seq<Glyph>, more: seq<Glyph>)
    returns (gs: seq<Glyph>)
    requires s != "" && s[0] as int == c && Prints(tail, s[1..]) && all == [[c]] + mid && mid == tail + more
    ensures Prints(gs, s) && all == gs + more
  {
    gs := [[c]] + tail;
  }

  lemma Nothing(s: CString, all: seq<Glyph>, more: seq<Glyph>) returns (gs: seq<Glyph>)
    requires s == "" && all == more
    ensures Prints(gs, s) && all == gs + more
  {
    gs := [];
  }

  lemma {:induction false} TextPrints(f: Converter, g: Reader, fmt: CString, i: nat, j: nat, k: nat, s: CString,
                                      text: string, more: seq<Glyph>)
    returns (all: seq<Glyph>, gs: seq<Glyph>)
    requires ReadsLiterals(g, fmt) && text == Escaped(s) && Stands(fmt, i, text) && j == i + |text|
    requires more == RenderWith(f, g, |fmt|, j, k)
    ensures all == RenderWith(f, g, |fmt|, i, k) && Prints(gs, s) && all == gs + more
    decreases |s|
  {
    all := RenderWith(f, g, |fmt|, i, k);
    if s == "" {
      gs := Nothing(s, all, more);
    } else {
      var first, rest := Doubled(s[0]), Escaped(s[1..]);
      var m: nat := i + |first|;
      EscapedFirst(s);
      StandsParts(fmt, i, first, rest);
      var mid, tail := TextPrints(f, g, fmt, m, j, k, s[1..], rest, more);
      LiteralPrints(f, g, fmt, i, k, s[0], m, mid);
      gs := Prefixed(s[0] as int, tail, s, all, mid, more);
    }
  }

  lemma EscapedPrints(f: Converter, g: Reader, fmt: CString, i: nat, j: nat, k: nat, s: CString, text: string)
    returns (gs: seq<Glyph>)
    requires ReadsLiterals(g, fmt) && text == Escaped(s) && Stands(fmt, i, text) && j == i + |text|
    ensures Prints(gs, s) && RenderWith(f, g, |fmt|, i, k) == gs + RenderWith(f, g, |fmt|, j, k)
  {
    var more, all := RenderWith(f, g, |fmt|, j, k), [];
    all, gs := TextPrints(f, g, fmt, i, j, k, s, text, more);
  }

  /** Text whose percent signs are doubled prints itself, wherever it stands in a format. */
  lemma TextPrintsItself(fmt: CString, args: seq<Arg>, i: nat, j: nat, k: nat, s: CString, text: string)
    returns (gs: seq<Glyph>)
    requires text == Escaped(s) && Stands(fmt, i, text) && j == i + |text|
    ensures Prints(gs, s)
    ensures
      RenderWith(Convert(), Read(fmt, args), |fmt|, i, k) == gs + RenderWith(Convert(), Read(fmt, args), |fmt|, j, k)
  {
    LiteralsAreRead(fmt, args);
    gs := EscapedPrints(Convert(), Read(fmt, args), fmt, i, j, k, s, text);
  }

  // ---------- conversions

  lemma StandsFirst(fmt: CString, i: nat, text: string)
    requires text != "" && Stands(fmt, i, text)
    ensures At(fmt, i) == text[0]
  {
    assert fmt[i + 0] == text[0];
  }

  /** No part of a specification begins with a percent sign. */
  lemma NotPercent(fmt: CString, i: nat, fs: string, width: Amount, precision: Option<Amount>, q: Qualifier,
                   i1: nat, i2: nat, i3: nat, i4: nat)
    requires Spells(fmt, i, fs, width, precision, q, i1, i2, i3, i4)
    ensures At(fmt, i) != '%'
  {
    if fs != "" {
      StandsFirst(fmt, i, fs);
    } else if width.Text() != "" {
      StandsFirst(fmt, i, width.Text());
    } else if precision.Some? {
      StandsFirst(fmt, i, PrecisionText(precision));
    } else if q != Plain {
      StandsFirst(fmt, i, QualifierText(q));
    }
  }

  lemma RoundIs(fmt: CString, i: nat, args: seq<Arg>, k: nat, d: Directive, i4: nat, arg: Arg)
    requires i + 1 < |fmt| && fmt[i] == '%' && fmt[i + 1] != '%'
    requires d == Parse(fmt, i + 1, args, k) && d.at == i4 < |fmt| && IsConversion(fmt[i4])
    requires arg == if d.k < |args| then args[d.k] else Word(0)
    ensures Read(fmt, args)(i, k) == Directed(d, fmt[i4], arg, i4 + 1, d.k + 1)
  {
  }

  /** Any other letter behind a percent sign ends the output. */
  lemma InvalidEnds(f: Converter, fmt: CString, args: seq<Arg>, i: nat, k: nat, d: Directive)
    requires i < |fmt| && fmt[i] == '%' && At(fmt, i + 1) != '%'
    requires d == Parse(fmt, i + 1, args, k) && At(fmt, d.at) !in "csdiouxXp"
    ensures RenderWith(f, Read(fmt, args), |fmt|, i, k) == []
  {
    ConversionLetters(At(fmt, d.at));
    assert NextRound(fmt, i, args, k).Invalid?;
    RenderRound(f, Read(fmt, args), |fmt|, i, k, Invalid);
  }

  lemma DirectedFirst(f: Converter, g: Reader, n: nat, i: nat, k: nat, d: Directive, conv: char, arg: Arg, i4: nat)
    requires i < i4 < n && g(i, k) == Directed(d, conv, arg, i4 + 1, d.k + 1)
    ensures RenderWith(f, g, n, i, k) == f(d, conv, arg) + RenderWith(f, g, n, i4 + 1, d.k + 1)
  {
    RenderRound(f, g, n, i, k, g(i, k));
  }

  /** What a written specification asks for, and the argument behind those that its stars take. */
  predicate AsksFor(fs: string, width: Amount, precision: Option<Amount>, q: Qualifier, i4: nat,
                    args: seq<Arg>, k: nat, d: Directive)
  {
    var (p, k') := PrecisionOf(precision, args, width.After(k));
    var flags := Flags('0' in fs, '+' in fs, ' ' in fs, '-' in fs, '#' in fs);
    d == Specification(flags, width.Number(args, k), p, q, i4, k')
  }

  lemma AskedIsRead(fmt: CString, args: seq<Arg>, i: nat, k: nat, fs: string, width: Amount,
                    precision: Option<Amount>, q: Qualifier, i1: nat, i2: nat, i3: nat, i4: nat, d: Directive)
    requires Spells(fmt, i, fs, width, precision, q, i1, i2, i3, i4)
    requires AsksFor(fs, width, precision, q, i4, args, k, d)
    ensures d == Parse(fmt, i, args, k) && i <= d.at == i4 < |fmt| && IsConversion(fmt[i4]) && fmt[i] != '%'
  {
    DirectiveRead(fmt, i, args, k, fs, width, precision, q, i1, i2, i3, i4);
    ConversionLetters(fmt[i4]);
    NotPercent(fmt, i, fs, width, precision, q, i1, i2, i3, i4);
  }

  lemma AskedRound(fmt: CString, args: seq<Arg>, i: nat, k: nat, fs: string, width: Amount,
                   precision: Option<Amount>, q: Qualifier, i1: nat, i2: nat, i3: nat, i4: nat, d: Directive, arg: Arg)
    requires i < |fmt| && fmt[i] == '%' && Spells(fmt, i + 1, fs, width, precision, q, i1, i2, i3, i4)
    requires AsksFor(fs, width, precision, q, i4, args, k, d)
    requires arg == if d.k < |args| then args[d.k] else Word(0)
    ensures i < i4 < |fmt| && Read(fmt, args)(i, k) == Directed(d, fmt[i4], arg, i4 + 1, d.k + 1)
  {
    assert d == Parse(fmt, i + 1, args, k) && i < d.at == i4 && fmt[i + 1] != '%' by {
      AskedIsRead(fmt, args, i + 1, k, fs, width, precision, q, i1, i2, i3, i4, d);
    }
    RoundIs(fmt, i, args, k, d, i4, arg);
  }

  /** A written specification prints the conversion that it asks for, of the argument behind those that
      its stars take, and the format goes on with the argument after that. */
  lemma SpecificationPrints(fmt: CString, args: seq<Arg>, i: nat, k: nat, fs: string, width: Amount,
                            precision: Option<Amount>, q: Qualifier, i1: nat, i2: nat, i3: nat, i4: nat, d: Directive,
                            arg: Arg)
    requires i < |fmt| && fmt[i] == '%' && Spells(fmt, i + 1, fs, width, precision, q, i1, i2, i3, i4)
    requires AsksFor(fs, width, precision, q, i4, args, k, d)
    requires arg == if d.k < |args| then args[d.k] else Word(0)
    ensures
      RenderWith(Convert(), Read(fmt, args), |fmt|, i, k)
      == Convert()(d, fmt[i4], arg) + RenderWith(Convert(), Read(fmt, args), |fmt|, i4 + 1, d.k + 1)
  {
    AskedRound(fmt, args, i, k, fs, width, precision, q, i1, i2, i3, i4, d, arg);
    DirectedFirst(Convert(), Read(fmt, args), |fmt|, i, k, d, fmt[i4], arg, i4);
  }

  // ---------- integers

  lemma DigitIs(d: nat, lower: bool)
    requires d < 16
    ensures DigitChar(d, lower) == (if lower then "0123456789abcdef" else "0123456789ABCDEF")[d] as int
  {
  }

  /** No sequence of digits for n is shorter than the canonical one. */
  lemma {:induction false} CanonicalIsShortest(base: nat, ds: seq<nat>, n: nat)
    requires 2 <= base && AllBelow(base, ds) && Value(base, ds) == n
    ensures |Digits(base, n)| <= |ds|
    ensures ds != [] && ds[0] == 0 ==> |Digits(base, n)| < |ds|
  {
    if ds != [] {
      var front, last := ds[..|ds| - 1], ds[|ds| - 1];
      CanonicalIsShortest(base, front, Value(base, front));
      if n > 0 {
        DigitsAppend(base, Value(base, front), last);
      }
    }
  }

  function Base(conv: char): nat {
    match conv
    case 'o' => 8
    case 'x' => 16
    case 'X' => 16
    case 'p' => 16
    case _ => 10
  }

  /** The digits denote n, there are as many as the precision asks for (by default one, and eight for
      pointers), and the # flag of an octal conversion begins them with a zero. */
  predicate AreDigits(d: Directive, conv: char, n: nat, ds: seq<nat>) {
    && AllBelow(Base(conv), ds) && Value(Base(conv), ds) == n
    && |ds| >= (if d.precision >= 0 then d.precision else if conv == 'p' then 8 else 1)
    && (d.flags.special && conv == 'o' ==> ds != [] && ds[0] == 0)
  }

  ghost predicate AreShortest(d: Directive, conv: char, n: nat, ds: seq<nat>) {
    AreDigits(d, conv, n, ds) && forall other :: AreDigits(d, conv, n, other) ==> |ds| <= |other|
  }

  /** An integer conversion prints the shortest digits of this kind. */
  lemma DigitsExactly(d: Directive, conv: char, n: nat) returns (ds: seq<nat>)
    requires IsNumeric(conv)
    ensures AreShortest(d, conv, n, ds)
    ensures AllBelow(16, ds) && DigitText(d, conv, n) == Text(ds, IsSmall(conv))
  {
    ds := DigitsStillDenote(d, conv, n);
    DigitTextShape(d, conv, n);
    forall other | AreDigits(d, conv, n, other) ensures |ds| <= |other| {
      CanonicalIsShortest(Base(conv), other, n);
    }
  }

  /** Filled up to the width: with spaces behind the text, with zeros between its mark and its digits,
      or with spaces before it. */
  predicate Fills(t: seq<byte>, left: bool, zero: bool, width: nat, mark: seq<byte>, digits: seq<byte>) {
    var m, n := |mark|, |mark| + |digits|;
    && |t| == (if width > n then width else n)
    && if left then t[..n] == mark + digits && forall i :: n <= i < |t| ==> t[i] == ' ' as int
       else if zero then
         && t[..m] == mark && t[|t| - |digits|..] == digits
         && forall i :: m <= i < |t| - |digits| ==> t[i] == '0' as int
       else t[|t| - n..] == mark + digits && forall i :: 0 <= i < |t| - n ==> t[i] == ' ' as int
  }

  lemma FieldFills(left: bool, zero: bool, width: nat, mark: seq<byte>, digits: seq<byte>)
    ensures Fills(InField(left, zero, width, mark, digits), left, zero, width, mark, digits)
  {
    FieldLength(left, zero, width, mark, digits);
    var t, n := InField(left, zero, width, mark, digits), |mark| + |digits|;
    if left {
      assert t[..n] == mark + digits;
    } else if zero {
      assert t[|t| - |digits|..] == digits;
    } else {
      assert t[|t| - n..] == mark + digits;
    }
  }

  /** A minus sign before negative values; before others a plus sign or a space if a flag asks for it. */
  predicate IsSign(sign: seq<byte>, d: Directive, conv: char, value: int) {
    if conv != 'd' && conv != 'i' then sign == []
    else if value < 0 then sign == ['-' as int]
    else
      && (sign == ['+' as int] <==> d.flags.plus)
      && (sign == [' ' as int] <==> d.flags.space && !d.flags.plus)
      && (sign == [] <==> !d.flags.space && !d.flags.plus)
  }

  /** With the # flag, 0x or 0X before the digits of a hexadecimal conversion, if there are any. */
  predicate IsRadix(radix: seq<byte>, d: Directive, conv: char, ds: seq<nat>) {
    if conv in "xXp" && d.flags.special && ds != [] then
      radix == ['0' as int, if conv == 'X' then 'X' as int else 'x' as int]
    else radix == []
  }

  /** The text of the digits, in capital letters for %X alone. */
  predicate IsText(t: seq<byte>, conv: char, ds: seq<nat>) {
    |t| == |ds| && forall i :: 0 <= i < |ds| ==>
      ds[i] < 16 && t[i] == (if conv == 'X' then "0123456789ABCDEF" else "0123456789abcdef")[ds[i]] as int
  }

  lemma TextIs(conv: char, ds: seq<nat>)
    requires IsNumeric(conv) && AllBelow(Base(conv), ds)
    ensures AllBelow(16, ds) && IsText(Text(ds, IsSmall(conv)), conv, ds)
  {
    forall i | 0 <= i < |ds|
      ensures
        ds[i] < 16
        && Text(ds, IsSmall(conv))[i] == (if conv == 'X' then "0123456789ABCDEF" else "0123456789abcdef")[ds[i]] as int
    {
      DigitIs(ds[i], IsSmall(conv));
      if Base(conv) <= 10 {
        DigitIs(ds[i], true);
      }
    }
  }

  lemma SignIs(d: Directive, conv: char, value: int)
    requires IsNumeric(conv)
    ensures IsSign(SignText(d, conv, value), d, conv, value)
  {
  }

  lemma RadixIs(d: Directive, conv: char, digits: seq<byte>, ds: seq<nat>)
    requires IsNumeric(conv) && |digits| == |ds|
    ensures IsRadix(RadixText(d, conv, digits), d, conv, ds)
  {
  }

  /** What an integer conversion prints: a sign, a mark and the shortest digits of the value, filled up
      to the width. */
  lemma IntegerExactly(d: Directive, conv: char, value: int)
    returns (sign: seq<byte>, radix: seq<byte>, ds: seq<nat>, digits: seq<byte>)
    requires IsNumeric(conv)
    ensures IsSign(sign, d, conv, value) && IsRadix(radix, d, conv, ds)
    ensures AreShortest(d, conv, if value < 0 then -value else value, ds) && IsText(digits, conv, ds)
    ensures
      Fills(NumberText(d, conv, value), d.flags.left, d.flags.zeropad && d.precision < 0, d.width, sign + radix, digits)
  {
    ds, digits := TextOfDigits(d, conv, Abs(value));
    sign, radix := SignText(d, conv, value), RadixText(d, conv, digits);
    SignIs(d, conv, value);
    RadixIs(d, conv, digits, ds);
    var zero := d.flags.zeropad && d.precision < 0;
    NumberTextIs(d, conv, value, sign + radix, digits, zero);
    FieldFills(d.flags.left, zero, d.width, sign + radix, digits);
  }

  lemma TextOfDigits(d: Directive, conv: char, n: nat) returns (ds: seq<nat>, digits: seq<byte>)
    requires IsNumeric(conv)
    ensures AreShortest(d, conv, n, ds) && IsText(digits, conv, ds) && digits == DigitText(d, conv, n)
  {
    ds := DigitsExactly(d, conv, n);
    TextIs(conv, ds);
    digits := DigitText(d, conv, n);
  }

  /** %p prints the address of a string, or a number modulo 2^32. */
  lemma PointerExactly(q: Qualifier, address: Address, bytes: seq<byte>, words: seq<u16>, value: int)
    ensures NumberArg('p', q, Narrow(address, bytes)) == NumberArg('p', q, Wide(address, words)) == address
    ensures NumberArg('p', q, Word(value)) == value % 0x1_0000_0000
  {
  }

  // ---------- strings

  lemma {:induction false} RepeatBytes(c: byte, n: nat)
    ensures Bytes(Repeat(c, n)) == Copies(c, n)
  {
    SinglesBytes(Copies(c, n));
    SinglesCopies(c, n);
  }

  /** A string conversion is filled with spaces, before it or behind it. */
  lemma StringFills(d: Directive, conv: char, arg: Arg)
    requires conv == 'c' || conv == 's'
    ensures
      Fills(Bytes(Conversion(d, conv, arg)), d.flags.left, false, d.width, [], Bytes(StringGlyphs(d, conv, arg)))
  {
    var gs := StringGlyphs(d, conv, arg);
    var n := Max(d.width - Length(gs), 0);
    PadFills(Bytes(gs), Copies(' ' as int, n), d.flags.left, d.width);
    RepeatBytes(' ' as int, n);
    BytesAdd(gs, Repeat(' ' as int, n));
    BytesAdd(Repeat(' ' as int, n), gs);
  }

  lemma PadFills(text: seq<byte>, spaces: seq<byte>, left: bool, width: nat)
    requires spaces == Copies(' ' as int, Max(width - |text|, 0))
    ensures Fills(if left then text + spaces else spaces + text, left, false, width, [], text)
  {
    assert [] + text == text;
  }

  /** %s of narrow text: the bytes before the first NUL, or as many of them as the precision allows. */
  lemma NarrowExactly(d: Directive, address: Address, bytes: seq<byte>) returns (s: seq<byte>)
    requires d.qualifier != L
    ensures s <= bytes && (forall i :: 0 <= i < |s| ==> s[i] != 0) && (|s| < |bytes| ==> bytes[|s|] == 0)
    ensures
      var limit := if d.precision < 0 then 0x7FFF_FFFF else d.precision;
      Bytes(StringGlyphs(d, 's', Narrow(address, bytes))) == if limit < |s| then s[..limit] else s
  {
    s := UpToNul(bytes);
    SinglesBytes(s[..Min(|s|, Limit(d))]);
    assert s[..|s|] == s;
  }

  /** %s of a null pointer: (null), or nothing when the precision leaves no room for that. */
  lemma NullExactly(d: Directive, value: int)
    ensures
      Bytes(StringGlyphs(d, 's', Word(value)))
      == if 0 <= d.precision < 6 then []
         else ['(' as int, 'n' as int, 'u' as int, 'l' as int, 'l' as int, ')' as int]
  {
    SinglesBytes(NULL_TEXT);
  }

  /** %c: the value modulo 256; %lc: the code point of that number modulo 2^16, U+FFFD for a surrogate. */
  lemma CharExactly(d: Directive, arg: Arg)
    ensures
      var c := arg.Bits() % 0x1_0000;
      Bytes(StringGlyphs(d, 'c', arg))
      == if d.qualifier != L then [arg.Bits() % 0x100]
         else if c == 0 then []
         else Utf8(if 0xD800 <= c < 0xE000 then 0xFFFD else c)
  {
    if d.qualifier != L {
      SinglesBytes([Unsigned(0x100, arg.Bits())]);
    } else {
      WideCharGlyphs(Unsigned(0x1_0000, arg.Bits()));
    }
  }

  lemma WideCharGlyphs(c: u16)
    ensures
      Bytes(Glyphs(Taken(Words([c, 0]), INT_MAX)))
      == if c == 0 then [] else Utf8(if 0xD800 <= c < 0xE000 then 0xFFFD else c)
  {
    if c != 0 {
      assert Words([c, 0]) == [c] + Words([c, 0][1..]) == [c];
      var x: nat := if 0xD800 <= c < 0xE000 then 0xFFFD else c;
      TakenOne(c, x, INT_MAX);
      BytesOne(Utf8(x));
      assert Glyphs([x]) == [Utf8(x)];
    }
  }

  lemma TakenOne(c: u16, x: nat, room: nat)
    requires x == (if 0xD800 <= c < 0xE000 then 0xFFFD else c as int) && room > 4
    ensures IsScalar(x) && Taken([c], room) == [x]
  {
    assert First([c]) == x && Rest([c]) == [];
  }
}
