/** The wide-string half of lib/vsprintf.c: a UTF-16 string (section 2.2 of RFC 2781) is
    measured and then transcoded to UTF-8 (section 3 of RFC 3629). */
module Utf16 {
  import opened Machine

  const REPLACEMENT: nat := 0xFFFD

  predicate IsHigh(c: u16) {
    c / 0x400 == 0xd800 / 0x400
  }

  predicate IsLow(c: u16) {
    c / 0x400 == 0xdc00 / 0x400
  }

  /** The code points that UTF-8 may carry. */
  predicate IsScalar(c: nat) {
    c < 0xD800 || 0xE000 <= c < 0x11_0000
  }

  predicate AllScalar(cs: seq<nat>) {
    forall i :: 0 <= i < |cs| ==> IsScalar(cs[i])
  }

  predicate StartsPair(ws: seq<u16>) {
    |ws| >= 2 && IsHigh(ws[0]) && IsLow(ws[1])
  }

  /** The code point at the start of a non-empty string; unpaired surrogates are replaced. */
  function First(ws: seq<u16>): (c: nat)
    requires ws != []
    ensures IsScalar(c)
  {
    if StartsPair(ws) then 0x10000 + (ws[0] - 0xd800) * 0x400 + (ws[1] - 0xdc00)
    else if IsHigh(ws[0]) || IsLow(ws[0]) then REPLACEMENT
    else ws[0]
  }

  /** The string after its first code point. */
  function Rest(ws: seq<u16>): seq<u16>
    requires ws != []
  {
    if StartsPair(ws) then ws[2..] else ws[1..]
  }

  /** The code points of a UTF-16 string. */
  function Decode(ws: seq<u16>): (cs: seq<nat>)
    ensures AllScalar(cs)
    decreases |ws|
  {
    if ws == [] then [] else [First(ws)] + Decode(Rest(ws))
  }

  /** The UTF-16 form of a sequence of code points, by section 2.1 of RFC 2781. */
  function ToUtf16(cs: seq<nat>): seq<u16>
    requires AllScalar(cs)
  {
    if cs == [] then []
    else if cs[0] < 0x10000 then [cs[0] as u16] + ToUtf16(cs[1..])
    else [(0xd800 + (cs[0] - 0x10000) / 0x400) as u16, (0xdc00 + (cs[0] - 0x10000) % 0x400) as u16] + ToUtf16(cs[1..])
  }

  /** Well-formed UTF-16 is decoded exactly. */
  lemma {:induction false} DecodeInverts(cs: seq<nat>)
    requires AllScalar(cs)
    ensures Decode(ToUtf16(cs)) == cs
  {
    if cs != [] {
      DecodeInverts(cs[1..]);
      var ws := ToUtf16(cs);
      if cs[0] < 0x10000 {
        assert Rest(ws) == ToUtf16(cs[1..]);
      } else {
        assert StartsPair(ws);
        assert Rest(ws) == ToUtf16(cs[1..]);
      }
      assert First(ws) == cs[0];
    }
  }

  /** How many bytes a code point takes in UTF-8. */
  function Width(c: nat): nat {
    if c < 0x80 then 1 else if c < 0x800 then 2 else if c < 0x10000 then 3 else 4
  }

  /** The UTF-8 form of one code point, by section 3 of RFC 3629. */
  function Utf8(c: nat): (bs: seq<byte>)
    requires c < 0x11_0000
    ensures |bs| == Width(c)
  {
    if c < 0x80 then [c]
    else if c < 0x800 then [0xC0 + c / 0x40, 0x80 + c % 0x40]
    else if c < 0x10000 then [0xE0 + c / 0x1000, 0x80 + c / 0x40 % 0x40, 0x80 + c % 0x40]
    else [0xF0 + c / 0x4_0000, 0x80 + c / 0x1000 % 0x40, 0x80 + c / 0x40 % 0x40, 0x80 + c % 0x40]
  }

  function Encode(cs: seq<nat>): seq<byte>
    requires AllScalar(cs)
  {
    if cs == [] then [] else Utf8(cs[0]) + Encode(cs[1..])
  }

  predicate IsContinuation(b: byte) {
    0x80 <= b < 0xC0
  }

  /** The value of a prefix followed by the six bits of a continuation byte. */
  function Append6(prefix: nat, b: byte): nat
    requires IsContinuation(b)
  {
    prefix * 0x40 + (b - 0x80)
  }

  /** One step of a strict UTF-8 reader: the code point and how many bytes it took.  Overlong
      forms, surrogates and values beyond U+10FFFF are refused. */
  function ReadUtf8(bs: seq<byte>): Option<(nat, nat)> {
    if bs == [] then None
    else if bs[0] < 0x80 then Some((bs[0], 1))
    else if |bs| >= 2 && 0xC0 <= bs[0] < 0xE0 && IsContinuation(bs[1]) then
      var c := Append6(bs[0] - 0xC0, bs[1]);
      if c < 0x80 then None else Some((c, 2))
    else if |bs| >= 3 && 0xE0 <= bs[0] < 0xF0 && IsContinuation(bs[1]) && IsContinuation(bs[2]) then
      var c := Append6(Append6(bs[0] - 0xE0, bs[1]), bs[2]);
      if c < 0x800 || !IsScalar(c) then None else Some((c, 3))
    else if |bs| >= 4 && 0xF0 <= bs[0] < 0xF8
         && IsContinuation(bs[1]) && IsContinuation(bs[2]) && IsContinuation(bs[3]) then
      var c := Append6(Append6(Append6(bs[0] - 0xF0, bs[1]), bs[2]), bs[3]);
      if c < 0x10000 || !IsScalar(c) then None else Some((c, 4))
    else None
  }

  function DecodeUtf8(bs: seq<byte>): Option<seq<nat>>
    decreases |bs|
  {
    if bs == [] then Some([])
    else
      match ReadUtf8(bs)
      case None => None
      case Some((c, k)) =>
        if k > |bs| || k == 0 then None
        else
          match DecodeUtf8(bs[k..])
          case None => None
          case Some(cs) => Some([c] + cs)
  }

  lemma SixBitGroups(c: nat)
    ensures c == c / 0x40 * 0x40 + c % 0x40
    ensures c == c / 0x1000 * 0x1000 + c / 0x40 % 0x40 * 0x40 + c % 0x40
    ensures c == c / 0x4_0000 * 0x4_0000 + c / 0x1000 % 0x40 * 0x1000 + c / 0x40 % 0x40 * 0x40 + c % 0x40
  {
    var d := c / 0x40;
    var e := d / 0x40;
    assert e == c / 0x1000 && e / 0x40 == c / 0x4_0000;
    assert c == d * 0x40 + c % 0x40;
    assert d == e * 0x40 + d % 0x40;
    assert e == e / 0x40 * 0x40 + e % 0x40;
  }

  lemma ReadInverts(c: nat, more: seq<byte>)
    requires IsScalar(c)
    ensures ReadUtf8(Utf8(c) + more) == Some((c, |Utf8(c)|))
  {
    SixBitGroups(c);
    var bs := Utf8(c) + more;
    assert forall i :: 0 <= i < |Utf8(c)| ==> bs[i] == Utf8(c)[i];
  }

  /** Encoding is valid UTF-8 and loses nothing. */
  lemma {:induction false} EncodeRoundTrip(cs: seq<nat>)
    requires AllScalar(cs)
    ensures DecodeUtf8(Encode(cs)) == Some(cs)
  {
    if cs != [] {
      EncodeRoundTrip(cs[1..]);
      ReadInverts(cs[0], Encode(cs[1..]));
      assert Encode(cs) == Utf8(cs[0]) + Encode(cs[1..]);
      assert Encode(cs)[|Utf8(cs[0])|..] == Encode(cs[1..]);
      assert [cs[0]] + cs[1..] == cs;
    }
  }

  /** The scan ends before the first character of ws. */
  predicate Stops(ws: seq<u16>, room: nat)
    requires ws != []
  {
    Width(First(ws)) > room || (IsHigh(ws[0]) && room <= 3)
  }

  /** The code points that fit into `room` bytes of UTF-8.  A high surrogate is taken only
      when at least four bytes are left, so that the word after it need not be read. */
  function Taken(ws: seq<u16>, room: nat): (cs: seq<nat>)
    ensures AllScalar(cs)
    ensures |Encode(cs)| <= room
    decreases |ws|
  {
    if ws == [] then []
    else if Stops(ws, room) then []
    else [First(ws)] + Taken(Rest(ws), room - Width(First(ws)))
  }

  /** The number of bytes that the taken characters encode to. */
  function Size(ws: seq<u16>, room: nat): (len: nat)
    ensures len <= room
    decreases |ws|
  {
    if ws == [] || Stops(ws, room) then 0
    else Width(First(ws)) + Size(Rest(ws), room - Width(First(ws)))
  }

  lemma {:induction false} SizeIsEncoded(ws: seq<u16>, room: nat)
    ensures Size(ws, room) == |Encode(Taken(ws, room))|
    decreases |ws|
  {
    if ws != [] && !Stops(ws, room) {
      SizeIsEncoded(Rest(ws), room - Width(First(ws)));
    }
  }

  /** How many words the first k code points of a string take up. */
  function Offset(ws: seq<u16>, k: nat): (n: nat)
    requires k <= |Decode(ws)|
    ensures n <= |ws|
    ensures k < |Decode(ws)| ==> n < |ws|
    decreases |ws|
  {
    if k == 0 then 0 else |ws| - |Rest(ws)| + Offset(Rest(ws), k - 1)
  }

  /** The number of bytes of the first k characters. */
  function PrefixSize(ws: seq<u16>, k: nat): nat
    requires k <= |Decode(ws)|
    decreases |ws|
  {
    if k == 0 then 0 else Width(First(ws)) + PrefixSize(Rest(ws), k - 1)
  }

  lemma {:induction false} PrefixSizeIsEncoded(ws: seq<u16>, k: nat)
    requires k <= |Decode(ws)|
    ensures PrefixSize(ws, k) == |Encode(Decode(ws)[..k])|
    decreases |ws|
  {
    if k > 0 {
      PrefixSizeIsEncoded(Rest(ws), k - 1);
      assert Decode(ws)[..k] == [First(ws)] + Decode(Rest(ws))[..k - 1];
    }
  }

  lemma {:induction false} TakenIsPrefix(ws: seq<u16>, room: nat)
    ensures Taken(ws, room) <= Decode(ws)
    decreases |ws|
  {
    if ws != [] && !Stops(ws, room) {
      TakenIsPrefix(Rest(ws), room - Width(First(ws)));
    }
  }

  /** When something is left out, it is for one of two reasons: the next character does not
      fit, or it begins with a high surrogate and would fill the room exactly. */
  lemma {:induction false} TakenIsLongest(ws: seq<u16>, room: nat, k: nat)
    requires k == |Taken(ws, room)| && k < |Decode(ws)|
    ensures
      || PrefixSize(ws, k + 1) > room
      || (PrefixSize(ws, k + 1) == room && IsHigh(ws[Offset(ws, k)]))
    decreases |ws|
  {
    if Stops(ws, room) {
      assert PrefixSize(ws, 1) == Width(First(ws)) + PrefixSize(Rest(ws), 0);
    } else {
      var left := room - Width(First(ws));
      TakenIsLongest(Rest(ws), left, k - 1);
      assert Offset(ws, k) == |ws| - |Rest(ws)| + Offset(Rest(ws), k - 1);
    }
  }

  /** A high surrogate is taken only when more than three bytes are left. */
  lemma {:induction false} TakenFits(ws: seq<u16>, room: nat, k: nat)
    requires k < |Taken(ws, room)| && k < |Decode(ws)|
    ensures PrefixSize(ws, k + 1) <= room
    ensures IsHigh(ws[Offset(ws, k)]) ==> PrefixSize(ws, k) + 3 < room
    decreases |ws|
  {
    if k > 0 {
      TakenIsPrefix(Rest(ws), room - Width(First(ws)));
      TakenFits(Rest(ws), room - Width(First(ws)), k - 1);
      assert Offset(ws, k) == |ws| - |Rest(ws)| + Offset(Rest(ws), k - 1);
    } else {
      assert PrefixSize(ws, 1) == Width(First(ws)) + PrefixSize(Rest(ws), 0);
    }
  }

  /** With room to spare the whole string is taken. */
  lemma {:induction false} TakenAll(ws: seq<u16>, room: nat)
    requires |Encode(Decode(ws))| < room
    ensures Taken(ws, room) == Decode(ws)
    decreases |ws|
  {
    if ws != [] {
      TakenAll(Rest(ws), room - Width(First(ws)));
    }
  }

  /** The string in memory: everything before the first NUL word. */
  function Words(s: seq<u16>): (ws: seq<u16>)
    ensures ws <= s
    ensures |ws| < |s| ==> s[|ws|] == 0
    ensures forall i :: 0 <= i < |ws| ==> ws[i] != 0
  {
    if s == [] || s[0] == 0 then [] else [s[0]] + Words(s[1..])
  }

  lemma {:induction false} WordsFrom(s: seq<u16>, i: nat)
    requires i <= |Words(s)|
    ensures Words(s[i..]) == Words(s)[i..]
  {
    if i > 0 {
      WordsFrom(s[1..], i - 1);
      assert s[1..][i - 1..] == s[i..];
    } else {
      assert s[0..] == s;
    }
  }

  /** Memory that may be read as a string of at most `limit` bytes of output: it holds a NUL
      word, or it is long enough for the limit to stop the scan. */
  predicate Readable(s: seq<u16>, limit: nat) {
    0 in s || limit <= |s|
  }

  /** The length of a word taken by itself, as the source computes it. */
  function WordLength(c0: u16): nat {
    1 + (if c0 >= 0x80 then 1 else 0) + (if c0 >= 0x800 then 1 else 0)
  }

  /** What the scanning code sees at position p of the memory is what First and Rest see. */
  lemma AtPosition(s: seq<u16>, p: nat)
    requires p < |Words(s)|
    ensures
      var here := Words(s)[p..];
      && s[p] == here[0] != 0
      && (p + 1 < |s| ==> (StartsPair(here) <==> IsHigh(s[p]) && IsLow(s[p + 1])))
      && (!IsHigh(s[p]) ==> !StartsPair(here))
      && Rest(here) == Words(s)[p + (if StartsPair(here) then 2 else 1)..]
      && Width(First(here)) == WordLength(s[p]) + (if StartsPair(here) then 1 else 0)
  {
    var ws := Words(s);
    var here := ws[p..];
    assert here[0] == ws[p] == s[p];
    if p + 1 < |ws| {
      assert here[1] == ws[p + 1] == s[p + 1];
    }
    FirstSize(here);
  }

  lemma FirstSize(here: seq<u16>)
    requires here != []
    ensures Width(First(here)) == WordLength(here[0]) + (if StartsPair(here) then 1 else 0)
    ensures Rest(here) == here[if StartsPair(here) then 2 else 1..]
  {
  }

  /** The two tests of the scan amount to Stops. */
  lemma StopsExactly(here: seq<u16>, clen: nat, room: nat)
    requires here != [] && clen == WordLength(here[0])
    ensures Stops(here, room) <==> clen > room || (IsHigh(here[0]) && clen == room)
    ensures !Stops(here, room) ==> Width(First(here)) <= room
    ensures IsHigh(here[0]) ==> clen == 3
  {
    FirstSize(here);
  }

  lemma SizeStep(here: seq<u16>, room: nat)
    requires here != []
    ensures
      Size(here, room)
      == if Stops(here, room) then 0 else Width(First(here)) + Size(Rest(here), room - Width(First(here)))
  {
  }

  lemma SizeOnward(here: seq<u16>, clen: nat, room: nat, there: seq<u16>, used: nat)
    requires here != [] && clen == WordLength(here[0]) && there == Rest(here) && used == Width(First(here))
    ensures Stops(here, room) <==> clen > room || (IsHigh(here[0]) && clen == room)
    ensures Stops(here, room) ==> Size(here, room) == 0
    ensures !Stops(here, room) ==> used <= room && Size(here, room) == used + Size(there, room - used)
    ensures IsHigh(here[0]) ==> clen == 3
  {
    StopsExactly(here, clen, room);
    SizeStep(here, room);
  }

  /** One round of the scan: it stops, or it moves from `here` to `there` and counts `used` bytes. */
  lemma ScanStep(s: seq<u16>, p: nat, here: seq<u16>, room: nat) returns (stops: bool, there: seq<u16>, used: nat)
    requires p < |Words(s)| && here == Words(s)[p..] && Readable(s, p + room)
    ensures IsHigh(s[p]) && WordLength(s[p]) < room ==> p + 1 < |s|
    ensures
      var pair := p + 1 < |s| && IsHigh(s[p]) && IsLow(s[p + 1]);
      && used == WordLength(s[p]) + (if pair then 1 else 0)
      && p + (if pair then 2 else 1) <= |Words(s)|
      && there == Words(s)[p + (if pair then 2 else 1)..]
    ensures stops <==> WordLength(s[p]) > room || (IsHigh(s[p]) && WordLength(s[p]) == room)
    ensures stops ==> Size(here, room) == 0
    ensures !stops ==> used <= room && Size(here, room) == used + Size(there, room - used)
  {
    AtPosition(s, p);
    there := Rest(here);
    used := Width(First(here));
    stops := Stops(here, room);
    SizeOnward(here, WordLength(s[p]), room, there, used);
  }

  lemma ReadableFrom(s: seq<u16>, p: nat, len: nat, limit: nat)
    requires Readable(s, limit) && p <= len < limit && p <= |Words(s)|
    ensures p < |s| && (s[p] != 0 ==> p < |Words(s)|) && Readable(s, p + (limit - len))
  {
  }

  lemma CountOn(here: seq<u16>, there: seq<u16>, len: nat, used: nat, len': nat, maxlen: nat)
    requires len' == len + used <= maxlen
    requires Size(here, maxlen - len) == used + Size(there, maxlen - len - used)
    ensures len' + Size(there, maxlen - len') == len + Size(here, maxlen - len)
  {
  }

  /** The body of the scanning loop, as far as words and lengths are concerned. */
  method ScanWord(s: seq<u16>, p: nat, len: nat, maxlen: nat) returns (more: bool, p': nat, len': nat)
    requires p < |s| && (IsHigh(s[p]) && len + WordLength(s[p]) < maxlen ==> p + 1 < |s|)
    ensures
      var end := len + WordLength(s[p]);
      var pair := p + 1 < |s| && IsHigh(s[p]) && IsLow(s[p + 1]);
      && (more <==> end <= maxlen && !(IsHigh(s[p]) && end == maxlen))
      && (more ==> p' == p + (if pair then 2 else 1) && len' == end + (if pair then 1 else 0))
  {
    var c0 := s[p];
    p', len', more := p + 1, len, false;
    var clen := WordLength(c0);
    if len + clen > maxlen {
      return;
    }
    if IsHigh(c0) {
      if len + clen == maxlen {
        return;
      }
      if IsLow(s[p']) {
        p' := p' + 1;
        clen := clen + 1;
      }
    }
    more, len' := true, len + clen;
  }

  /** One round of the scan: it stops where nothing more is taken, or moves on by one character. */
  method ScanOne(s: seq<u16>, p: nat, len: nat, maxlen: nat, ghost here: seq<u16>)
    returns (more: bool, p': nat, len': nat, ghost there: seq<u16>)
    requires Readable(s, maxlen) && p <= len < maxlen && p < |Words(s)| && here == Words(s)[p..]
    ensures !more ==> Size(here, maxlen - len) == 0
    ensures more ==> p < p' <= len' <= maxlen && p' <= |Words(s)| && there == Words(s)[p'..]
    ensures more ==> len' + Size(there, maxlen - len') == len + Size(here, maxlen - len)
  {
    ReadableFrom(s, p, len, maxlen);
    ghost var stops, used;
    stops, there, used := ScanStep(s, p, here, maxlen - len);
    more, p', len' := ScanWord(s, p, len, maxlen);
    if more {
      CountOn(here, there, len, used, len', maxlen);
    }
  }

  /** utf16s_utf8nlen: the number of UTF-8 bytes for the characters that fit. */
  method Utf8Length(s: seq<u16>, maxlen: nat) returns (len: nat)
    requires Readable(s, maxlen)
    ensures len == Size(Words(s), maxlen)
    ensures len <= maxlen
  {
    var p := 0;
    len := 0;
    ghost var here := Words(s);
    while len < maxlen && s[p] != 0
      invariant p <= len <= maxlen && p <= |Words(s)|
      invariant here == Words(s)[p..]
      invariant len + Size(here, maxlen - len) == Size(Words(s), maxlen)
      decreases |Words(s)| - p
    {
      ReadableFrom(s, p, len, maxlen);
      var more, p', len';
      more, p', len', here := ScanOne(s, p, len, maxlen, here);
      if !more {
        break;
      }
      p, len := p', len';
    }
  }

  /** utf16_to_utf32: the code point at position p and the position after it.  The word after
      a surrogate is read only when the first one is high. */
  method ToUtf32(s: seq<u16>, p: nat) returns (c32: nat, next: nat)
    requires p < |Words(s)|
    requires IsHigh(s[p]) ==> p + 1 < |s|
    ensures c32 == First(Words(s)[p..])
    ensures next <= |Words(s)| && Words(s)[next..] == Rest(Words(s)[p..])
    ensures next == p + (if StartsPair(Words(s)[p..]) then 2 else 1)
  {
    AtPosition(s, p);
    var c0: int := s[p];
    next := p + 1;
    if c0 / 0x800 != 0xd800 / 0x800 {
      return c0, next;
    }
    if c0 / 0x400 % 2 == 1 {
      return REPLACEMENT, next;
    }
    var c1: int := s[next];
    if !IsLow(c1) {
      return REPLACEMENT, next;
    }
    next := next + 1;
    c32 := U32((0x10000 - 0xd800 * 0x400 - 0xdc00) + c0 * 0x400 + c1);
  }
}
