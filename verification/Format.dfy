/** Conversion specifications of vsnprintf in lib/vsprintf.c: how they are parsed, and the text
    that each of them stands for (section 7.21.6.1 of ISO/IEC 9899:2011). */
module Format {
  import opened Machine
  import opened Utf16
  import opened Output
  import opened Decimal

  /** A format string: its characters are bytes, and its terminating NUL is left implicit. */
  type CString = s: string | forall i :: 0 <= i < |s| ==> 0 < s[i] as int < 256 witness ""

  const INT_MAX: int := 0x7FFF_FFFF

  function At(fmt: CString, i: nat): char {
    if i < |fmt| then fmt[i] else '\0'
  }

  /** Where a string stands in memory: anywhere but at the null pointer. */
  type Address = a: u32 | a != 0 witness 1

  /** A variadic argument: an integer or null pointer, or a pointer to a string. */
  datatype Arg =
    | Word(value: int)
    | Narrow(address: Address, bytes: seq<byte>)
    | Wide(address: Address, words: seq<u16>)
  {
    /** The argument read as an integer or as a pointer value. */
    function Bits(): int {
      match this
      case Word(v) => v
      case Narrow(a, _) => a
      case Wide(a, _) => a
    }
  }

  /** The k-th variadic argument.  Reading past the end is undefined in C; the model reads zero. */
  function ArgAt(args: seq<Arg>, k: nat): Arg {
    if k < |args| then args[k] else Word(0)
  }

  function Unsigned(modulus: nat, x: int): nat
    requires modulus > 0
  {
    x % modulus
  }

  function Signed(modulus: nat, x: int): int
    requires modulus > 0
  {
    var m := x % modulus;
    if 2 * m >= modulus then m - modulus else m
  }

  datatype Flags = Flags(zeropad: bool, plus: bool, space: bool, left: bool, special: bool)

  const NO_FLAGS := Flags(false, false, false, false, false)

  predicate IsFlag(c: char) {
    c == '-' || c == '+' || c == ' ' || c == '#' || c == '0'
  }

  function SetFlag(flags: Flags, c: char): Flags {
    match c
    case '-' => flags.(left := true)
    case '+' => flags.(plus := true)
    case ' ' => flags.(space := true)
    case '#' => flags.(special := true)
    case '0' => flags.(zeropad := true)
    case _ => flags
  }

  function ParseFlags(fmt: CString, i: nat, flags: Flags): (r: (Flags, nat))
    ensures i <= r.1 && (i <= |fmt| ==> r.1 <= |fmt|)
    decreases |fmt| - i
  {
    if i < |fmt| && IsFlag(fmt[i]) then ParseFlags(fmt, i + 1, SetFlag(flags, fmt[i])) else (flags, i)
  }

  /** get_flags: the run of flag characters at the cursor, in any order and with repetitions, is read
      up to the first other character, and each flag is set exactly when its character is in it. */
  method GetFlags(fmt: CString, i: nat) returns (flags: Flags, next: nat)
    requires i <= |fmt|
    ensures (flags, next) == ParseFlags(fmt, i, NO_FLAGS)
    ensures i <= next <= |fmt| && (forall j :: i <= j < next ==> fmt[j] in "-+ #0") && At(fmt, next) !in "-+ #0"
    ensures
      var run := fmt[i..next];
      flags == Flags('0' in run, '+' in run, ' ' in run, '-' in run, '#' in run)
  {
    flags, next := NO_FLAGS, i;
    while true
      invariant i <= next <= |fmt| && forall j :: i <= j < next ==> fmt[j] in "-+ #0"
      invariant ParseFlags(fmt, next, flags) == ParseFlags(fmt, i, NO_FLAGS)
      invariant
        var run := fmt[i..next];
        flags == Flags('0' in run, '+' in run, ' ' in run, '-' in run, '#' in run)
      decreases |fmt| - next
    {
      assert next < |fmt| ==> fmt[i..next + 1] == fmt[i..next] + [fmt[next]];
      match At(fmt, next) {
        case '-' => flags := flags.(left := true);
        case '+' => flags := flags.(plus := true);
        case ' ' => flags := flags.(space := true);
        case '#' => flags := flags.(special := true);
        case '0' => flags := flags.(zeropad := true);
        case _ => return;
      }
      next := next + 1;
    }
  }

  predicate IsDigit(c: char) {
    '0' <= c <= '9'
  }

  function ParseDigits(fmt: CString, i: nat, acc: nat): (r: (nat, nat))
    ensures i <= r.1 && (i <= |fmt| ==> r.1 <= |fmt|)
    decreases |fmt| - i
  {
    if i < |fmt| && IsDigit(fmt[i]) then ParseDigits(fmt, i + 1, acc * 10 + (fmt[i] as int - '0' as int)) else (acc, i)
  }

  /** skip_atoi */
  method SkipAtoi(fmt: CString, i: nat) returns (n: nat, next: nat)
    requires i <= |fmt|
    ensures (n, next) == ParseDigits(fmt, i, 0)
  {
    n, next := 0, i;
    while IsDigit(At(fmt, next))
      invariant i <= next <= |fmt|
      invariant ParseDigits(fmt, next, n) == ParseDigits(fmt, i, 0)
      decreases |fmt| - next
    {
      n := n * 10 + (fmt[next] as int - '0' as int);
      next := next + 1;
    }
  }

  /** The value of a width or precision, the position after it, and the next argument. */
  function ParseInt(fmt: CString, i: nat, args: seq<Arg>, k: nat): (r: (int, nat, nat))
    ensures i <= r.1 && (i <= |fmt| ==> r.1 <= |fmt|)
  {
    if IsDigit(At(fmt, i)) then (ParseDigits(fmt, i, 0).0, ParseDigits(fmt, i, 0).1, k)
    else if At(fmt, i) == '*' then (Signed(TWO32, ArgAt(args, k).Bits()), i + 1, k + 1)
    else (0, i, k)
  }

  /** get_int */
  method GetInt(fmt: CString, i: nat, args: seq<Arg>, k: nat) returns (n: int, next: nat, k': nat)
    requires i <= |fmt|
    ensures (n, next, k') == ParseInt(fmt, i, args, k)
  {
    if IsDigit(At(fmt, i)) {
      n, next := SkipAtoi(fmt, i);
      k' := k;
    } else if At(fmt, i) == '*' {
      n, next, k' := Signed(TWO32, ArgAt(args, k).Bits()), i + 1, k + 1;
    } else {
      n, next, k' := 0, i, k;
    }
  }

  function ParsePrecision(fmt: CString, i: nat, args: seq<Arg>, k: nat): (r: (int, nat, nat))
    ensures i <= r.1 && (i <= |fmt| ==> r.1 <= |fmt|)
  {
    if At(fmt, i) == '.' then ParseInt(fmt, i + 1, args, k) else (-1, i, k)
  }

  datatype Qualifier = Plain | H | HH | L | LL

  function ParseQualifier(fmt: CString, i: nat): (r: (Qualifier, nat))
    ensures i <= r.1 && (i <= |fmt| ==> r.1 <= |fmt|)
  {
    if At(fmt, i) == 'h' then if At(fmt, i + 1) == 'h' then (HH, i + 2) else (H, i + 1)
    else if At(fmt, i) == 'l' then if At(fmt, i + 1) == 'l' then (LL, i + 2) else (L, i + 1)
    else (Plain, i)
  }

  /** A conversion specification.  The width is not negative; a precision of -1 or less means
      none was given; `at` is the position of the conversion character and `k` the next argument. */
  datatype Directive = Directive(flags: Flags, width: nat, precision: int, qualifier: Qualifier, at: nat, k: nat)

  /** The specification whose flags begin at position i, just after the percent sign. */
  function Parse(fmt: CString, i: nat, args: seq<Arg>, k: nat): (d: Directive)
    ensures i <= d.at && (i <= |fmt| ==> d.at <= |fmt|)
  {
    var (flags0, i1) := ParseFlags(fmt, i, NO_FLAGS);
    var (width0, i2, k2) := ParseInt(fmt, i1, args, k);
    var flags := if width0 < 0 then flags0.(left := true) else flags0;
    var width: nat := if width0 < 0 then -width0 else width0;
    var (precision, i3, k3) := ParsePrecision(fmt, i2, args, k2);
    var (qualifier, i4) := ParseQualifier(fmt, i3);
    Directive(flags, width, precision, qualifier, i4, k3)
  }

  predicate IsNumeric(c: char) {
    c == 'o' || c == 'p' || c == 'x' || c == 'X' || c == 'd' || c == 'i' || c == 'u'
  }

  predicate IsConversion(c: char) {
    c == 'c' || c == 's' || IsNumeric(c)
  }

  predicate IsSigned(c: char) {
    c == 'd' || c == 'i'
  }

  function BaseOf(c: char): nat {
    if c == 'o' then 8 else if c == 'p' || c == 'x' || c == 'X' then 16 else 10
  }

  /** get_number: the argument of an integer conversion, converted as its qualifier says.
      A long has 32 bits here. */
  function NumberArg(conv: char, qualifier: Qualifier, arg: Arg): (n: int)
    ensures -(TWO64 as int) <= 2 * n < 2 * TWO64
    ensures !IsSigned(conv) ==> 0 <= n
  {
    if conv == 'p' then Unsigned(TWO32, arg.Bits())
    else if IsSigned(conv) then
      match qualifier
      case LL => Signed(TWO64, arg.Bits())
      case L => Signed(TWO32, arg.Bits())
      case H => Signed(0x1_0000, arg.Bits())
      case HH => Signed(0x100, arg.Bits())
      case Plain => Signed(TWO32, arg.Bits())
    else
      match qualifier
      case LL => Unsigned(TWO64, arg.Bits())
      case L => Unsigned(TWO32, arg.Bits())
      case H => Unsigned(0x1_0000, arg.Bits())
      case HH => Unsigned(0x100, arg.Bits())
      case Plain => Unsigned(TWO32, arg.Bits())
  }

  /** Lines 344-377: everything between the percent sign and the conversion character. */
  method ParseDirective(fmt: CString, i: nat, args: seq<Arg>, k: nat) returns (d: Directive)
    requires i <= |fmt|
    ensures d == Parse(fmt, i, args, k)
  {
    var flags, j := GetFlags(fmt, i);
    var width, k';
    width, j, k' := GetInt(fmt, j, args, k);
    if width < 0 {
      width := -width;
      flags := flags.(left := true);
    }
    var precision := -1;
    if At(fmt, j) == '.' {
      precision, j, k' := GetInt(fmt, j + 1, args, k');
    }
    var qualifier := Plain;
    if At(fmt, j) == 'h' || At(fmt, j) == 'l' {
      var first := At(fmt, j);
      qualifier := if first == 'h' then H else L;
      j := j + 1;
      if At(fmt, j) == first {
        qualifier := if first == 'h' then HH else LL;
        j := j + 1;
      }
    }
    d := Directive(flags, width, precision, qualifier, j, k');
  }
}
