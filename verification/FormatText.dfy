/** Properties of the format parser and of the rendering that hold for every format string. */
module FormatText {
  import opened Machine
  import opened Utf16
  import opened Output
  import opened Decimal
  import opened Format
  import opened Vsnprintf

  // ---------- reading back a written specification

  /** The decimal text of n, without leading zeros; zero is written as nothing. */
  function Written(ds: seq<nat>): (s: string)
    requires AllBelow(10, ds)
    ensures |s| == |ds|
  {
    seq(|ds|, i requires 0 <= i < |ds| => ('0' as int + ds[i]) as char)
  }

  /** `text` stands at position i of the format. */
  predicate Stands(fmt: CString, i: nat, text: string) {
    i + |text| <= |fmt| && forall j :: 0 <= j < |text| ==> fmt[i + j] == text[j]
  }

  /** Each flag is set when its character occurs, in any order and with repetitions, or when it was
      set before. */
  function FlagsOf(fs: string, flags: Flags): Flags {
    Flags(flags.zeropad || '0' in fs, flags.plus || '+' in fs, flags.space || ' ' in fs,
          flags.left || '-' in fs, flags.special || '#' in fs)
  }

  lemma FlagsFirst(fs: string, flags: Flags)
    requires fs != "" && IsFlag(fs[0])
    ensures FlagsOf(fs[1..], SetFlag(flags, fs[0])) == FlagsOf(fs, flags)
  {
    assert fs == [fs[0]] + fs[1..];
  }

  lemma {:induction false} FlagsRead(fmt: CString, i: nat, fs: string, flags: Flags)
    requires Stands(fmt, i, fs) && forall j :: 0 <= j < |fs| ==> fs[j] in "-+ #0"
    requires At(fmt, i + |fs|) !in "-+ #0"
    ensures ParseFlags(fmt, i, flags) == (FlagsOf(fs, flags), i + |fs|)
    ensures FlagsOf(fs, NO_FLAGS) == Flags('0' in fs, '+' in fs, ' ' in fs, '-' in fs, '#' in fs)
    decreases |fs|
  {
    if fs != "" {
      FlagsRead(fmt, i + 1, fs[1..], SetFlag(flags, fs[0]));
      FlagsFirst(fs, flags);
    }
  }

  /** The number built up by appending digits to acc. */
  function Shift(acc: nat, ds: seq<nat>): nat
    decreases |ds|
  {
    if ds == [] then acc else Shift(acc * 10 + ds[0], ds[1..])
  }

  lemma {:induction false} ShiftLast(acc: nat, ds: seq<nat>, d: nat)
    ensures Shift(acc, ds + [d]) == Shift(acc, ds) * 10 + d
    decreases |ds|
  {
    if ds != [] {
      ShiftLast(acc * 10 + ds[0], ds[1..], d);
      assert (ds + [d])[1..] == ds[1..] + [d];
    } else {
      assert (ds + [d])[1..] == [];
    }
  }

  lemma {:induction false} ShiftIsValue(ds: seq<nat>)
    ensures Shift(0, ds) == Value(10, ds)
  {
    if ds != [] {
      var front := ds[..|ds| - 1];
      ShiftIsValue(front);
      ShiftLast(0, front, ds[|ds| - 1]);
      assert front + [ds[|ds| - 1]] == ds;
    }
  }

  lemma {:induction false} DigitsRead(fmt: CString, i: nat, ds: seq<nat>, acc: nat)
    requires AllBelow(10, ds)
    requires Stands(fmt, i, Written(ds))
    requires !IsDigit(At(fmt, i + |ds|))
    ensures ParseDigits(fmt, i, acc) == (Shift(acc, ds), i + |ds|)
    decreases |ds|
  {
    if ds != [] {
      var text, rest := Written(ds), Written(ds[1..]);
      assert fmt[i + 0] == text[0];
      assert forall j :: 0 <= j < |rest| ==> rest[j] == text[j + 1] == fmt[i + (j + 1)];
      DigitsRead(fmt, i + 1, ds[1..], acc * 10 + ds[0]);
    }
  }

  /** A width or precision as it is written: digits, which may be none at all or begin with
      zeros, or a star. */
  datatype Amount = Given(ds: seq<nat>) | Star {
    predicate Valid() {
      Given? ==> AllBelow(10, ds)
    }

    function Text(): string
      requires Valid()
    {
      if Given? then Written(ds) else "*"
    }

    /** The number that it stands for, when k is the next argument. */
    function Number(args: seq<Arg>, k: nat): int {
      if Given? then Value(10, ds) else Signed(TWO32, ArgAt(args, k).Bits())
    }

    /** The argument after those that it takes. */
    function After(k: nat): nat {
      if Given? then k else k + 1
    }
  }

  /** A written number or star is read back; the empty text reads as zero. */
  lemma AmountRead(fmt: CString, i: nat, a: Amount, args: seq<Arg>, k: nat)
    requires a.Valid() && Stands(fmt, i, a.Text())
    requires a.Given? ==> var c := At(fmt, i + |a.Text()|); !IsDigit(c) && c != '*'
    ensures ParseInt(fmt, i, args, k) == (a.Number(args, k), i + |a.Text()|, a.After(k))
  {
    if a.Star? {
      assert fmt[i + 0] == a.Text()[0];
    } else {
      DigitsRead(fmt, i, a.ds, 0);
      ShiftIsValue(a.ds);
      if a.ds != [] {
        assert fmt[i + 0] == a.Text()[0];
      }
    }
  }

  /** The canonical text of a number is read back. */
  lemma NumberRead(fmt: CString, i: nat, n: nat, args: seq<Arg>, k: nat)
    requires Stands(fmt, i, Written(Digits(10, n)))
    requires var c := At(fmt, i + |Digits(10, n)|); !IsDigit(c) && c != '*'
    ensures ParseInt(fmt, i, args, k) == (n, i + |Digits(10, n)|, k)
  {
    DigitsDenote(10, n);
    AmountRead(fmt, i, Given(Digits(10, n)), args, k);
  }

  function QualifierText(q: Qualifier): string {
    match q
    case Plain => ""
    case H => "h"
    case HH => "hh"
    case L => "l"
    case LL => "ll"
  }

  lemma QualifierRead(fmt: CString, i: nat, q: Qualifier)
    requires Stands(fmt, i, QualifierText(q))
    requires var c := At(fmt, i + |QualifierText(q)|); c != 'h' && c != 'l'
    ensures ParseQualifier(fmt, i) == (q, i + |QualifierText(q)|)
  {
    var text := QualifierText(q);
    assert |text| >= 1 ==> At(fmt, i + 0) == text[0];
    assert |text| >= 2 ==> At(fmt, i + 1) == text[1];
  }

  function PrecisionText(precision: Option<Amount>): string
    requires precision.Some? ==> precision.value.Valid()
  {
    if precision.None? then "" else "." + precision.value.Text()
  }

  /** The value of a precision, -1 if there is none, and the argument after those that it takes. */
  function PrecisionOf(precision: Option<Amount>, args: seq<Arg>, k: nat): (int, nat) {
    if precision.None? then (-1, k) else (precision.value.Number(args, k), precision.value.After(k))
  }

  predicate EndsNumber(c: char) {
    !IsDigit(c) && c != '*' && c != '.'
  }

  lemma PrecisionRead(fmt: CString, i: nat, args: seq<Arg>, k: nat, precision: Option<Amount>)
    requires precision.Some? ==> precision.value.Valid()
    requires Stands(fmt, i, PrecisionText(precision))
    requires EndsNumber(At(fmt, i + |PrecisionText(precision)|))
    ensures
      var (p, k') := PrecisionOf(precision, args, k);
      ParsePrecision(fmt, i, args, k) == (p, i + |PrecisionText(precision)|, k')
  {
    if precision.Some? {
      DotBegins(fmt, i, precision.value.Text());
      AmountRead(fmt, i + 1, precision.value, args, k);
    }
  }

  lemma DotBegins(fmt: CString, i: nat, text: string)
    requires Stands(fmt, i, "." + text)
    ensures At(fmt, i) == '.' && Stands(fmt, i + 1, text)
  {
    var all := "." + text;
    assert At(fmt, i + 0) == all[0];
    forall j | 0 <= j < |text| ensures fmt[i + 1 + j] == text[j] {
      assert text[j] == all[j + 1] == fmt[i + (j + 1)];
    }
  }

  lemma QualifierBegins(fmt: CString, q: Qualifier, i3: nat, i4: nat)
    requires Stands(fmt, i3, QualifierText(q)) && i4 == i3 + |QualifierText(q)|
    requires i4 < |fmt| && IsConversion(fmt[i4])
    ensures EndsNumber(At(fmt, i3)) && !IsFlag(At(fmt, i3))
  {
    assert q != Plain ==> At(fmt, i3 + 0) == QualifierText(q)[0];
  }

  lemma PrecisionBegins(fmt: CString, precision: Option<Amount>, i2: nat, i3: nat)
    requires precision.Some? ==> precision.value.Valid()
    requires Stands(fmt, i2, PrecisionText(precision)) && i3 == i2 + |PrecisionText(precision)|
    requires EndsNumber(At(fmt, i3)) && !IsFlag(At(fmt, i3))
    ensures !IsDigit(At(fmt, i2)) && At(fmt, i2) != '*' && !IsFlag(At(fmt, i2))
  {
    if precision.Some? {
      assert At(fmt, i2 + 0) == PrecisionText(precision)[0] == '.';
    }
  }

  /** A width does not begin with a zero, which would be a flag. */
  predicate IsWidth(a: Amount) {
    a.Valid() && (a.Given? && a.ds != [] ==> a.ds[0] != 0)
  }

  lemma WidthBegins(fmt: CString, width: Amount, i1: nat, i2: nat)
    requires IsWidth(width) && Stands(fmt, i1, width.Text()) && i2 == i1 + |width.Text()|
    requires !IsFlag(At(fmt, i2))
    ensures !IsFlag(At(fmt, i1))
  {
    if width.Text() != "" {
      assert At(fmt, i1 + 0) == width.Text()[0];
    }
  }

  /** `fs`, `width`, `precision` and `q` are written one after the other from position i on, up to
      a conversion character; the position of each but the first is given. */
  predicate Spells(fmt: CString, i: nat, fs: string, width: Amount, precision: Option<Amount>, q: Qualifier,
                   i1: nat, i2: nat, i3: nat, i4: nat)
  {
    && IsWidth(width) && (precision.Some? ==> precision.value.Valid())
    && Stands(fmt, i, fs) && (forall j :: 0 <= j < |fs| ==> IsFlag(fs[j])) && i1 == i + |fs|
    && Stands(fmt, i1, width.Text()) && i2 == i1 + |width.Text()|
    && Stands(fmt, i2, PrecisionText(precision)) && i3 == i2 + |PrecisionText(precision)|
    && Stands(fmt, i3, QualifierText(q)) && i4 == i3 + |QualifierText(q)|
    && i4 < |fmt| && fmt[i4] in "csdiouxXp"
  }

  lemma ConversionLetters(c: char)
    ensures IsConversion(c) <==> c in "csdiouxXp"
  {
  }

  /** The characters at which the parts of a specification begin. */
  lemma PartsBegin(fmt: CString, i: nat, fs: string, width: Amount, precision: Option<Amount>, q: Qualifier,
                   i1: nat, i2: nat, i3: nat, i4: nat)
    requires Spells(fmt, i, fs, width, precision, q, i1, i2, i3, i4)
    ensures EndsNumber(At(fmt, i3)) && !IsFlag(At(fmt, i3))
    ensures !IsDigit(At(fmt, i2)) && At(fmt, i2) != '*' && !IsFlag(At(fmt, i2))
    ensures !IsFlag(At(fmt, i1))
  {
    ConversionLetters(fmt[i4]);
    QualifierBegins(fmt, q, i3, i4);
    PrecisionBegins(fmt, precision, i2, i3);
    WidthBegins(fmt, width, i1, i2);
  }

  /** What is written: a negative width is its absolute value with the flag `-`. */
  function Specification(flags: Flags, w: int, p: int, q: Qualifier, at: nat, k: nat): Directive {
    Directive(if w < 0 then flags.(left := true) else flags, Abs(w), p, q, at, k)
  }

  lemma ParseParts(fmt: CString, i: nat, args: seq<Arg>, k: nat, flags: Flags, width: int, precision: int, q: Qualifier,
                   i1: nat, i2: nat, i3: nat, i4: nat, k2: nat, k3: nat)
    requires ParseFlags(fmt, i, NO_FLAGS) == (flags, i1)
    requires ParseInt(fmt, i1, args, k) == (width, i2, k2)
    requires ParsePrecision(fmt, i2, args, k2) == (precision, i3, k3)
    requires ParseQualifier(fmt, i3) == (q, i4)
    ensures Parse(fmt, i, args, k) == Specification(flags, width, precision, q, i4, k3)
  {
  }

  lemma FlagsPart(fmt: CString, i: nat, fs: string, i1: nat)
    requires Stands(fmt, i, fs) && (forall j :: 0 <= j < |fs| ==> IsFlag(fs[j])) && i1 == i + |fs|
    requires !IsFlag(At(fmt, i1))
    ensures ParseFlags(fmt, i, NO_FLAGS) == (FlagsOf(fs, NO_FLAGS), i1)
  {
    FlagsRead(fmt, i, fs, NO_FLAGS);
  }

  lemma WidthPart(fmt: CString, i1: nat, args: seq<Arg>, k: nat, width: Amount, i2: nat)
    requires width.Valid() && Stands(fmt, i1, width.Text()) && i2 == i1 + |width.Text()|
    requires !IsDigit(At(fmt, i2)) && At(fmt, i2) != '*'
    ensures ParseInt(fmt, i1, args, k) == (width.Number(args, k), i2, width.After(k))
  {
    AmountRead(fmt, i1, width, args, k);
  }

  lemma PrecisionPart(fmt: CString, i2: nat, args: seq<Arg>, k: nat, precision: Option<Amount>, i3: nat)
    requires precision.Some? ==> precision.value.Valid()
    requires Stands(fmt, i2, PrecisionText(precision)) && i3 == i2 + |PrecisionText(precision)|
    requires EndsNumber(At(fmt, i3))
    ensures
      ParsePrecision(fmt, i2, args, k) == (PrecisionOf(precision, args, k).0, i3, PrecisionOf(precision, args, k).1)
  {
    PrecisionRead(fmt, i2, args, k, precision);
  }

  lemma QualifierPart(fmt: CString, i3: nat, q: Qualifier, i4: nat)
    requires Stands(fmt, i3, QualifierText(q)) && i4 == i3 + |QualifierText(q)|
    requires i4 < |fmt| && IsConversion(fmt[i4])
    ensures ParseQualifier(fmt, i3) == (q, i4)
  {
    QualifierRead(fmt, i3, q);
  }

  /** The parts of a written specification are read one after the other. */
  lemma PartsRead(fmt: CString, i: nat, args: seq<Arg>, k: nat, fs: string, width: Amount,
                  precision: Option<Amount>, q: Qualifier, i1: nat, i2: nat, i3: nat, i4: nat, k2: nat)
    requires Spells(fmt, i, fs, width, precision, q, i1, i2, i3, i4) && k2 == width.After(k)
    ensures ParseFlags(fmt, i, NO_FLAGS) == (FlagsOf(fs, NO_FLAGS), i1)
    ensures ParseInt(fmt, i1, args, k) == (width.Number(args, k), i2, k2)
    ensures
      ParsePrecision(fmt, i2, args, k2)
      == (PrecisionOf(precision, args, k2).0, i3, PrecisionOf(precision, args, k2).1)
    ensures ParseQualifier(fmt, i3) == (q, i4)
  {
    PartsBegin(fmt, i, fs, width, precision, q, i1, i2, i3, i4);
    FlagsPart(fmt, i, fs, i1);
    WidthPart(fmt, i1, args, k, width, i2);
    PrecisionPart(fmt, i2, args, k2, precision, i3);
    ConversionLetters(fmt[i4]);
    QualifierPart(fmt, i3, q, i4);
  }

  /** The parser reads back any written specification: flag characters in any order, a width, a
      precision and a qualifier, and then a conversion character.  A star takes the next argument. */
  lemma DirectiveRead(fmt: CString, i: nat, args: seq<Arg>, k: nat, fs: string, width: Amount,
                      precision: Option<Amount>, q: Qualifier, i1: nat, i2: nat, i3: nat, i4: nat)
    requires Spells(fmt, i, fs, width, precision, q, i1, i2, i3, i4)
    ensures
      var (p, k3) := PrecisionOf(precision, args, width.After(k));
      var flags := Flags('0' in fs, '+' in fs, ' ' in fs, '-' in fs, '#' in fs);
      Parse(fmt, i, args, k) == Specification(flags, width.Number(args, k), p, q, i4, k3)
  {
    var k2 := width.After(k);
    var (p, k3) := PrecisionOf(precision, args, k2);
    PartsRead(fmt, i, args, k, fs, width, precision, q, i1, i2, i3, i4, k2);
    ParseParts(fmt, i, args, k, FlagsOf(fs, NO_FLAGS), width.Number(args, k), p, q, i1, i2, i3, i4, k2, k3);
  }

  // ---------- truncation

  /** No %lc or %ls conversion occurs. */
  predicate NoWide(g: Reader, n: nat, i: nat, k: nat)
    decreases n - i
  {
    i < n && !g(i, k).Invalid? && Advances(g(i, k), i, n) ==>
      IsNarrow(g(i, k)) && NoWide(g, n, g(i, k).next, g(i, k).k)
  }

  predicate IsNarrow(r: Round) {
    r.Directed? && IsConversion(r.conv) ==> IsNumeric(r.conv) || r.d.qualifier != L
  }

  predicate AllSingle(gs: seq<Glyph>) {
    forall i :: 0 <= i < |gs| ==> |gs[i]| == 1
  }

  lemma RoundIsSingle(r: Round)
    requires !r.Invalid? && IsNarrow(r)
    ensures AllSingle(RoundGlyphs(Convert(), r))
  {
  }

  lemma SingleSum(all: seq<Glyph>, a: seq<Glyph>, b: seq<Glyph>)
    requires all == a + b && AllSingle(a) && AllSingle(b)
    ensures AllSingle(all)
  {
  }

  lemma {:induction false} NarrowIsSingle(f: Converter, g: Reader, n: nat, i: nat, k: nat)
    requires NoWide(g, n, i, k)
    requires forall r: Round :: !r.Invalid? && IsNarrow(r) ==> AllSingle(RoundGlyphs(f, r))
    ensures AllSingle(RenderWith(f, g, n, i, k))
    decreases n - i
  {
    if i < n {
      var r := g(i, k);
      if !r.Invalid? && Advances(r, i, n) {
        RenderRound(f, g, n, i, k, r);
        NarrowIsSingle(f, g, n, r.next, r.k);
        SingleSum(RenderWith(f, g, n, i, k), RoundGlyphs(f, r), RenderWith(f, g, n, r.next, r.k));
      }
    }
  }

  /** Without wide conversions the buffer of Vsnprintf holds exactly the first size - 1 bytes
      of the unbounded text, or all of it. */
  lemma NarrowTruncation(fmt: CString, args: seq<Arg>, size: nat)
    requires NoWide(Read(fmt, args), |fmt|, 0, 0) && size > 0
    ensures Kept(Render(fmt, args), size) == Min(Length(Render(fmt, args)), size - 1)
  {
    var f := Convert();
    forall r: Round | !r.Invalid? && IsNarrow(r) ensures AllSingle(RoundGlyphs(f, r)) {
      RoundIsSingle(r);
    }
    NarrowIsSingle(f, Read(fmt, args), |fmt|, 0, 0);
    KeptSingles(Render(fmt, args), size);
  }

  // ---------- what the conversions mean

  lemma {:induction false} GlyphBytes(cs: seq<nat>)
    requires AllScalar(cs)
    ensures Bytes(Glyphs(cs)) == Encode(cs)
  {
    if cs != [] {
      GlyphBytes(cs[1..]);
      assert Glyphs(cs)[1..] == Glyphs(cs[1..]);
    }
  }

  /** A %ls conversion puts out valid UTF-8 that decodes to the code points taken from the
      string; with room to spare these are all of them. */
  lemma WideStringText(d: Directive, address: Address, words: seq<u16>)
    requires d.qualifier == L
    ensures
      var limit := if d.precision < 0 then 0x7FFF_FFFF else d.precision;
      var gs := StringGlyphs(d, 's', Wide(address, words));
      var cs := Taken(Words(words), limit);
      && DecodeUtf8(Bytes(gs)) == Some(cs) && Length(gs) <= limit
      && cs <= Decode(Words(words))
      && (|Encode(Decode(Words(words)))| < limit ==> cs == Decode(Words(words)))
  {
    var cs := Taken(Words(words), Limit(d));
    GlyphBytes(cs);
    EncodeRoundTrip(cs);
    TakenIsPrefix(Words(words), Limit(d));
    if |Encode(Decode(Words(words)))| < Limit(d) {
      TakenAll(Words(words), Limit(d));
    }
  }

  /** The range of an integer conversion, from its qualifier. */
  function Modulus(conv: char, qualifier: Qualifier): nat {
    if conv == 'p' then TWO32
    else
      match qualifier
      case LL => TWO64
      case H => 0x1_0000
      case HH => 0x100
      case _ => TWO32
  }

  /** The number printed is the one value in the range of its type that agrees with the argument
      modulo that range. */
  lemma NumberArgExactly(conv: char, qualifier: Qualifier, arg: Arg, n: int)
    ensures
      var m := Modulus(conv, qualifier);
      n == NumberArg(conv, qualifier, arg)
      <==> (n - arg.Bits()) % m == 0 && (if IsSigned(conv) then -(m as int) <= 2 * n < m else 0 <= n < m)
  {
    var m, x := Modulus(conv, qualifier), arg.Bits();
    if m == 0x100 {
      Residue8(x, n);
    } else if m == 0x1_0000 {
      Residue16(x, n);
    } else if m == TWO32 {
      Residue32(x, n);
    } else {
      Residue64(x, n);
    }
  }

  lemma Residue8(x: int, n: int)
    ensures n == Unsigned(0x100, x) <==> (n - x) % 0x100 == 0 && 0 <= n < 0x100
    ensures n == Signed(0x100, x) <==> (n - x) % 0x100 == 0 && -0x100 <= 2 * n < 0x100
  {
  }

  lemma Residue16(x: int, n: int)
    ensures n == Unsigned(0x1_0000, x) <==> (n - x) % 0x1_0000 == 0 && 0 <= n < 0x1_0000
    ensures n == Signed(0x1_0000, x) <==> (n - x) % 0x1_0000 == 0 && -0x1_0000 <= 2 * n < 0x1_0000
  {
  }

  lemma Residue32(x: int, n: int)
    ensures n == Unsigned(TWO32, x) <==> (n - x) % TWO32 == 0 && 0 <= n < TWO32
    ensures n == Signed(TWO32, x) <==> (n - x) % TWO32 == 0 && -(TWO32 as int) <= 2 * n < TWO32
  {
  }

  lemma Residue64(x: int, n: int)
    ensures n == Unsigned(TWO64, x) <==> (n - x) % TWO64 == 0 && 0 <= n < TWO64
    ensures n == Signed(TWO64, x) <==> (n - x) % TWO64 == 0 && -(TWO64 as int) <= 2 * n < TWO64
  {
  }

  lemma {:induction false} ZerosKeepValue(base: nat, k: nat, ds: seq<nat>)
    ensures Value(base, seq(k, _ => 0) + ds) == Value(base, ds)
    decreases |ds|, k
  {
    var zeros := seq(k, _ => 0);
    if ds != [] {
      ZerosKeepValue(base, k, ds[..|ds| - 1]);
      assert (zeros + ds)[..k + |ds| - 1] == zeros + ds[..|ds| - 1];
    } else if k > 0 {
      ZerosKeepValue(base, k - 1, []);
      assert (zeros + ds)[..k - 1] == seq(k - 1, _ => 0) + [];
    }
  }

  /** Precision and flags add only leading zeros: the digits of an integer conversion still
      denote its magnitude in its base, and there are at least as many as the precision asks for. */
  lemma DigitsStillDenote(d: Directive, conv: char, magnitude: nat) returns (ds: seq<nat>)
    ensures AllBelow(BaseOf(conv), ds) && AllBelow(16, ds)
    ensures DigitText(d, conv, magnitude) == Text(ds, IsSmall(conv))
    ensures Value(BaseOf(conv), ds) == magnitude && |ds| >= d.precision
    ensures d.flags.special && conv == 'o' ==> ds != [] && ds[0] == 0
  {
    var base, all := BaseOf(conv), Digits(BaseOf(conv), magnitude);
    DigitTextShape(d, conv, magnitude);
    DigitsDenote(base, magnitude);
    var zeros := seq(FinalPrecision(d, conv, |all|) - |all|, _ => 0);
    ds := zeros + all;
    ZerosKeepValue(base, |zeros|, all);
    TextConcat(zeros, all, IsSmall(conv));
    assert Text(zeros, IsSmall(conv)) == Copies(ZERO, |zeros|);
  }

  // ---------- the # flag

  /** 0x or 0X as section 7.21.6.1 of ISO/IEC 9899:2011 asks for it: before a nonzero result. */
  function IsoRadix(d: Directive, conv: char, value: int): seq<byte> {
    if d.flags.special && BaseOf(conv) == 16 && value != 0 then
      [ZERO, if IsSmall(conv) then 'x' as int else 'X' as int]
    else []
  }

  /** The text of an integer conversion by that section. */
  function IsoText(d: Directive, conv: char, value: int): seq<byte> {
    InField(d.flags.left, d.flags.zeropad && d.precision < 0, d.width,
            SignText(d, conv, value) + IsoRadix(d, conv, value), DigitText(d, conv, Abs(value)))
  }

  /** A hexadecimal zero that has a digit gets the mark that it should not have. */
  predicate MarkedZero(d: Directive, conv: char, value: int) {
    d.flags.special && BaseOf(conv) == 16 && value == 0 && d.precision != 0
  }

  lemma RadixExactly(d: Directive, conv: char, value: int)
    requires conv != 'p'
    ensures
      if MarkedZero(d, conv, value) then
        RadixText(d, conv, DigitText(d, conv, Abs(value))) != [] == IsoRadix(d, conv, value)
      else RadixText(d, conv, DigitText(d, conv, Abs(value))) == IsoRadix(d, conv, value)
  {
    DigitTextShape(d, conv, Abs(value));
    DigitsDenote(BaseOf(conv), Abs(value));
  }

  lemma ZeroDigits(d: Directive, conv: char)
    requires conv != 'p'
    ensures forall j :: 0 <= j < |DigitText(d, conv, 0)| ==> DigitText(d, conv, 0)[j] == ZERO
  {
    DigitTextShape(d, conv, 0);
    assert Digits(BaseOf(conv), 0) == [];
  }

  /** A field of zeros is not one with a letter in its mark. */
  lemma LetterTells(left: bool, zero: bool, width: int, letter: byte, digits: seq<byte>)
    requires letter != ZERO && letter != SPACE && forall j :: 0 <= j < |digits| ==> digits[j] == ZERO
    ensures InField(left, zero, width, [ZERO, letter], digits) != InField(left, zero, width, [], digits)
  {
    assert letter !in digits;
    assert letter !in Copies(ZERO, width - |digits|) && letter !in Copies(SPACE, width - |digits|);
    assert letter !in InField(left, zero, width, [], digits);
    assert letter == [ZERO, letter][1];
    assert letter in [ZERO, letter];
    assert letter in InField(left, zero, width, [ZERO, letter], digits);
  }

  /** The number conversions put out what the standard asks for, except for a hexadecimal zero
      under the # flag that has a digit.  %p is left to the implementation by the standard. */
  lemma StandardExactly(d: Directive, conv: char, value: int)
    requires IsNumeric(conv) && conv != 'p'
    ensures NumberText(d, conv, value) == IsoText(d, conv, value) <==> !MarkedZero(d, conv, value)
  {
    RadixExactly(d, conv, value);
    if MarkedZero(d, conv, value) {
      ZeroDigits(d, conv);
      LetterTells(d.flags.left, d.flags.zeropad && d.precision < 0, d.width,
                  if IsSmall(conv) then 'x' as int else 'X' as int, DigitText(d, conv, 0));
      assert NumberMark(d, conv, value) == [ZERO, if IsSmall(conv) then 'x' as int else 'X' as int];
      assert SignText(d, conv, value) + IsoRadix(d, conv, value) == [];
    }
  }

  /** The conversions with the texts of the standard; %p stays as the source has it. */
  function IsoConvert(): Converter {
    (d: Directive, conv: char, arg: Arg) =>
      if IsNumeric(conv) && conv != 'p' then Singles(IsoText(d, conv, NumberArg(conv, d.qualifier, arg)))
      else if IsConversion(conv) then Conversion(d, conv, arg)
      else []
  }

  predicate IsUnmarked(r: Round) {
    r.Directed? && IsNumeric(r.conv) && r.conv != 'p' ==>
      !MarkedZero(r.d, r.conv, NumberArg(r.conv, r.d.qualifier, r.arg))
  }

  /** No conversion of the format is a marked zero. */
  predicate NoMarkedZero(g: Reader, n: nat, i: nat, k: nat)
    decreases n - i
  {
    i < n && !g(i, k).Invalid? && Advances(g(i, k), i, n) ==>
      IsUnmarked(g(i, k)) && NoMarkedZero(g, n, g(i, k).next, g(i, k).k)
  }

  lemma FieldLength(left: bool, zero: bool, width: int, mark: seq<byte>, digits: seq<byte>)
    ensures |InField(left, zero, width, mark, digits)| == Max(width, |mark| + |digits|)
  {
  }

  /** The source's text is never shorter than that of the standard. */
  lemma StandardIsShorter(d: Directive, conv: char, value: int)
    requires conv != 'p'
    ensures |NumberText(d, conv, value)| >= |IsoText(d, conv, value)|
  {
    var left, zero := d.flags.left, d.flags.zeropad && d.precision < 0;
    var digits := DigitText(d, conv, Abs(value));
    RadixExactly(d, conv, value);
    FieldLength(left, zero, d.width, NumberMark(d, conv, value), digits);
    FieldLength(left, zero, d.width, SignText(d, conv, value) + IsoRadix(d, conv, value), digits);
  }

  lemma {:induction false} SinglesBytes(a: seq<byte>)
    ensures Bytes(Singles(a)) == a
  {
    if a != [] {
      SinglesBytes(a[1..]);
      assert Singles(a)[1..] == Singles(a[1..]);
    }
  }

  /** Two renderings of one round: the first is never shorter, and its bytes are those of the second
      exactly when the round is not a marked zero. */
  predicate Standard(a: seq<Glyph>, b: seq<Glyph>, unmarked: bool) {
    |Bytes(a)| >= |Bytes(b)| && (Bytes(a) == Bytes(b) <==> unmarked) && (unmarked ==> a == b)
  }

  lemma RoundIsStandard(r: Round)
    requires !r.Invalid?
    ensures Standard(RoundGlyphs(Convert(), r), RoundGlyphs(IsoConvert(), r), IsUnmarked(r))
  {
    if r.Directed? && IsNumeric(r.conv) && r.conv != 'p' {
      var value := NumberArg(r.conv, r.d.qualifier, r.arg);
      var a, b := NumberText(r.d, r.conv, value), IsoText(r.d, r.conv, value);
      StandardExactly(r.d, r.conv, value);
      StandardIsShorter(r.d, r.conv, value);
      assert IsoConvert()(r.d, r.conv, r.arg) == Singles(b);
      assert Conversion(r.d, r.conv, r.arg) == Singles(a);
      SinglesBytes(a);
      SinglesBytes(b);
    } else if r.Directed? {
      assert IsoConvert()(r.d, r.conv, r.arg) == Convert()(r.d, r.conv, r.arg);
    }
  }

  ghost predicate Dominates(f: Converter, f': Converter) {
    forall r: Round :: !r.Invalid? ==> Standard(RoundGlyphs(f, r), RoundGlyphs(f', r), IsUnmarked(r))
  }

  /** Equal sums of parts of which none is shorter are equal part by part. */
  lemma PartsEqual(a: seq<byte>, b: seq<byte>, a': seq<byte>, b': seq<byte>)
    requires |a| >= |a'| && |b| >= |b'|
    ensures a + b == a' + b' <==> a == a' && b == b'
  {
    if a + b == a' + b' {
      assert |a + b| == |a' + b'|;
      assert a == (a + b)[..|a|] && a' == (a' + b')[..|a'|];
      assert b == (a + b)[|a|..] && b' == (a' + b')[|a'|..];
    }
  }

  lemma StandardSum(a: seq<Glyph>, b: seq<Glyph>, a': seq<Glyph>, b': seq<Glyph>, first: bool, rest: bool)
    requires Standard(a, a', first) && Standard(b, b', rest)
    ensures Standard(a + b, a' + b', first && rest)
  {
    BytesAdd(a, b);
    BytesAdd(a', b');
    PartsEqual(Bytes(a), Bytes(b), Bytes(a'), Bytes(b'));
  }

  lemma {:induction false} SameRendering(f: Converter, f': Converter, g: Reader, n: nat, i: nat, k: nat)
    requires Dominates(f, f')
    ensures Standard(RenderWith(f, g, n, i, k), RenderWith(f', g, n, i, k), NoMarkedZero(g, n, i, k))
    decreases n - i
  {
    if i < n {
      var r := g(i, k);
      if !r.Invalid? && Advances(r, i, n) {
        RenderRound(f, g, n, i, k, r);
        RenderRound(f', g, n, i, k, r);
        SameRendering(f, f', g, n, r.next, r.k);
        StandardSum(RoundGlyphs(f, r), RenderWith(f, g, n, r.next, r.k),
                    RoundGlyphs(f', r), RenderWith(f', g, n, r.next, r.k),
                    IsUnmarked(r), NoMarkedZero(g, n, r.next, r.k));
      }
    }
  }

  /** A whole format is rendered as the standard asks for, byte by byte, exactly when none of its
      conversions is a marked zero. */
  lemma StandardRendering(fmt: CString, args: seq<Arg>)
    ensures
      Bytes(Render(fmt, args)) == Bytes(RenderWith(IsoConvert(), Read(fmt, args), |fmt|, 0, 0))
      <==> NoMarkedZero(Read(fmt, args), |fmt|, 0, 0)
    ensures
      Render(fmt, args) == RenderWith(IsoConvert(), Read(fmt, args), |fmt|, 0, 0)
      <==> NoMarkedZero(Read(fmt, args), |fmt|, 0, 0)
  {
    forall r: Round | !r.Invalid?
      ensures Standard(RoundGlyphs(Convert(), r), RoundGlyphs(IsoConvert(), r), IsUnmarked(r))
    {
      RoundIsStandard(r);
    }
    SameRendering(Convert(), IsoConvert(), Read(fmt, args), |fmt|, 0, 0);
  }

  lemma ZeroText(d: Directive)
    requires d.flags == NO_FLAGS.(special := true) && d.width == 0 && d.precision == -1
    ensures NumberText(d, 'x', 0) == [ZERO, 'x' as int, ZERO] && IsoText(d, 'x', 0) == [ZERO]
  {
    assert Digits(16, 0) == [] && Text([], true) == [];
    assert DigitText(d, 'x', 0) == [ZERO];
    assert NumberMark(d, 'x', 0) == [ZERO, 'x' as int];
    assert SignText(d, 'x', 0) + IsoRadix(d, 'x', 0) == [];
  }

  lemma ParseSharp(fmt: CString, args: seq<Arg>)
    requires fmt == "%#x"
    ensures Parse(fmt, 1, args, 0) == Directive(NO_FLAGS.(special := true), 0, -1, Plain, 2, 0)
  {
    DirectiveRead(fmt, 1, args, 0, "#", Given([]), None, Plain, 2, 2, 2, 2);
  }

  lemma OneRound(f: Converter, g: Reader, n: nat, r: Round)
    requires n > 0 && g(0, 0) == r && r.Directed? && r.next == n
    ensures RenderWith(f, g, n, 0, 0) == f(r.d, r.conv, r.arg)
  {
    RenderRound(f, g, n, 0, 0, r);
  }

  lemma SharpRound(fmt: CString, args: seq<Arg>, d: Directive)
    requires fmt == "%#x" && args == [Word(0)]
    requires d == Parse(fmt, 1, args, 0) && d.at == 2 && d.k == 0
    ensures NextRound(fmt, 0, args, 0) == Directed(d, 'x', Word(0), 3, 1)
  {
  }

  lemma ZeroGlyphs(d: Directive, text: seq<byte>)
    requires d.qualifier == Plain && text == NumberText(d, 'x', 0)
    ensures Convert()(d, 'x', Word(0)) == Singles(text)
  {
    assert NumberArg('x', d.qualifier, Word(0)) == 0;
    assert Conversion(d, 'x', Word(0)) == Singles(NumberText(d, 'x', NumberArg('x', d.qualifier, Word(0))));
  }

  /** "%#x" of zero puts out 0x0 instead of 0. */
  lemma ZeroIsMarked(fmt: CString, args: seq<Arg>, d: Directive)
    requires fmt == "%#x" && args == [Word(0)] && d == Parse(fmt, 1, args, 0)
    ensures Render(fmt, args) == Singles([ZERO, 'x' as int, ZERO])
    ensures IsoText(d, 'x', 0) == [ZERO]
  {
    ParseSharp(fmt, args);
    ZeroText(d);
    SharpRound(fmt, args, d);
    ZeroGlyphs(d, [ZERO, 'x' as int, ZERO]);
    OneRound(Convert(), Read(fmt, args), 3, Directed(d, 'x', Word(0), 3, 1));
  }

  lemma {:induction false} RepeatLength(c: byte, n: nat)
    ensures Length(Repeat(c, n)) == n
  {
    KeptSingles(Repeat(c, n), 0);
  }

  /** Every conversion fills its field, and grows beyond it only when its text is longer. */
  lemma FieldIsFilled(d: Directive, conv: char, arg: Arg)
    requires IsConversion(conv)
    ensures Length(Conversion(d, conv, arg)) >= d.width
    ensures
      !IsNumeric(conv) ==> Length(Conversion(d, conv, arg)) == Max(d.width, Length(StringGlyphs(d, conv, arg)))
    ensures
      IsNumeric(conv) ==>
        var value := NumberArg(conv, d.qualifier, arg);
        Length(Conversion(d, conv, arg))
        == Max(d.width, |NumberMark(d, conv, value)| + |DigitText(d, conv, Abs(value))|)
  {
    if IsNumeric(conv) {
      var value := NumberArg(conv, d.qualifier, arg);
      FieldLength(d.flags.left, d.flags.zeropad && d.precision < 0, d.width, NumberMark(d, conv, value),
                  DigitText(d, conv, Abs(value)));
      SinglesBytes(NumberText(d, conv, value));
    } else {
      PadIsFilled(d, StringGlyphs(d, conv, arg));
    }
  }

  lemma PadIsFilled(d: Directive, gs: seq<Glyph>)
    ensures Length(Pad(d, gs)) == Max(d.width, Length(gs))
  {
    var spaces := Repeat(SPACE, Max(d.width - Length(gs), 0));
    RepeatLength(SPACE, Max(d.width - Length(gs), 0));
    BytesAdd(gs, spaces);
    BytesAdd(spaces, gs);
  }
}
