/**
 * encodeURIComponent and decodeURIComponent (sections 18.2.6.5 and 18.2.6.3 of
 * ECMAScript 2015, built on the Encode and Decode operations of section 18.2.6.1):
 * every character outside the unreserved set is replaced by the percent-escapes
 * (section 2.1 of RFC 3986) of the bytes of its UTF-8 encoding.
 *
 * A Dafny `char` is a Unicode scalar value, so a string here is a well-formed
 * sequence of code points and the URIError that encodeURIComponent raises on a
 * lone surrogate cannot arise.
 */
module UriComponent {
  import opened Wrappers

  type Byte = b: int | 0 <= b < 256

  predicate IsAlphaNumeric(c: char) {
    'A' <= c <= 'Z' || 'a' <= c <= 'z' || '0' <= c <= '9'
  }

  /** The characters encodeURIComponent copies unchanged: letters, digits and `-_.!~*'()`. */
  predicate IsUnreserved(c: char) {
    IsAlphaNumeric(c) || c in "-_.!~*'()"
  }

  predicate IsUpperHexDigit(c: char) {
    '0' <= c <= '9' || 'A' <= c <= 'F'
  }

  /** The characters that can occur in the output of encodeURIComponent. */
  predicate IsEncodedChar(c: char) {
    IsUnreserved(c) || c == '%' || IsUpperHexDigit(c)
  }

  function HexDigit(n: nat): (c: char)
    requires n < 16
    ensures IsUpperHexDigit(c)
  {
    "0123456789ABCDEF"[n]
  }

  /** The value of a hexadecimal digit in either case, as the decoder accepts it. */
  function HexValue(c: char): (r: Option<nat>)
    ensures r.Some? ==> r.value < 16
  {
    if '0' <= c <= '9' then Some(c as int - '0' as int)
    else if 'A' <= c <= 'F' then Some(c as int - 'A' as int + 10)
    else if 'a' <= c <= 'f' then Some(c as int - 'a' as int + 10)
    else None
  }

  lemma HexValueOfDigit(n: nat)
    requires n < 16
    ensures HexValue(HexDigit(n)) == Some(n)
  {
  }

  /** UTF-8 encoding of one code point (section 3 of RFC 3629). */
  function Utf8(c: char): (bs: seq<Byte>)
    ensures 1 <= |bs| <= 4
    ensures bs[0] < 0x80 <==> |bs| == 1
    ensures forall j :: 1 <= j < |bs| ==> 0x80 <= bs[j] < 0xC0
  {
    var v := c as int;
    var q1 := v / 64;
    var q2 := q1 / 64;
    var q3 := q2 / 64;
    if v < 0x80 then [v]
    else if v < 0x800 then [0xC0 + q1, 0x80 + v % 64]
    else if v < 0x1_0000 then [0xE0 + q2, 0x80 + q1 % 64, 0x80 + v % 64]
    else [0xF0 + q3, 0x80 + q2 % 64, 0x80 + q1 % 64, 0x80 + v % 64]
  }

  function PercentEncodeByte(b: Byte): (s: string)
    ensures |s| == 3 && s[0] == '%' && IsUpperHexDigit(s[1]) && IsUpperHexDigit(s[2])
  {
    ['%', HexDigit(b / 16), HexDigit(b % 16)]
  }

  function PercentEncodeBytes(bs: seq<Byte>): (s: string)
    ensures |s| == 3 * |bs|
    ensures forall i :: 0 <= i < |s| ==> s[i] == '%' || IsUpperHexDigit(s[i])
  {
    if bs == [] then [] else PercentEncodeByte(bs[0]) + PercentEncodeBytes(bs[1..])
  }

  function EncodeChar(c: char): (s: string)
    ensures forall i :: 0 <= i < |s| ==> IsEncodedChar(s[i])
  {
    if IsUnreserved(c) then [c] else PercentEncodeBytes(Utf8(c))
  }

  /** encodeURIComponent: its output is drawn from the unreserved characters, `%` and upper-case hex digits only. */
  function EncodeURIComponent(s: string): (r: string)
    ensures forall i :: 0 <= i < |r| ==> IsEncodedChar(r[i])
    ensures |s| <= |r|
  {
    if s == [] then [] else EncodeChar(s[0]) + EncodeURIComponent(s[1..])
  }

  /** The byte written by the escape `%XY` at position `i` of `s`, if there is one. */
  function ByteAt(s: string, i: nat): (r: Option<Byte>)
  {
    if i + 3 <= |s| && s[i] == '%' && HexValue(s[i + 1]).Some? && HexValue(s[i + 2]).Some? then
      Some(16 * HexValue(s[i + 1]).value + HexValue(s[i + 2]).value)
    else None
  }

  /**
   * Reads the continuation escapes `j .. n-1` of an `n`-byte sequence whose
   * escapes start at position 0 of `s`, folding their six payload bits into `acc`.
   */
  function DecodeContinuation(s: string, j: nat, n: nat, acc: int): Option<int>
    decreases n - j
  {
    if j >= n then Some(acc)
    else
      match ByteAt(s, 3 * j)
      case None => None
      case Some(b) =>
        if 0x80 <= b < 0xC0 then DecodeContinuation(s, j + 1, n, acc * 64 + (b as int - 0x80)) else None
  }

  /** The least code point that needs `n` bytes: anything smaller is an overlong form. */
  function MinCodePoint(n: nat): int {
    if n == 2 then 0x80 else if n == 3 then 0x800 else 0x1_0000
  }

  /**
   * Decodes the escape sequence at the start of `s` (which starts with `%`): the
   * character it stands for and the number of characters it occupies, or `None`
   * where decodeURIComponent throws a URIError.
   */
  function DecodeEscape(s: string): (r: Option<(char, nat)>)
    ensures r.Some? ==> 3 <= r.value.1 <= |s|
  {
    match ByteAt(s, 0)
    case None => None
    case Some(b0) =>
      if b0 < 0x80 then Some((b0 as char, 3))
      else if b0 < 0xC0 || 0xF8 <= b0 then None
      else
        var n := if b0 < 0xE0 then 2 else if b0 < 0xF0 then 3 else 4;
        var lead := if n == 2 then b0 - 0xC0 else if n == 3 then b0 - 0xE0 else b0 - 0xF0;
        if 3 * n > |s| then None
        else
          match DecodeContinuation(s, 1, n, lead)
          case None => None
          case Some(v) =>
            if v < MinCodePoint(n) || 0x10_FFFF < v || 0xD800 <= v < 0xE000 then None
            else Some((v as char, 3 * n))
  }

  /** decodeURIComponent: `None` where it throws a URIError. */
  function DecodeURIComponent(s: string): (r: Option<string>)
    decreases |s|
  {
    if s == [] then Some([])
    else if s[0] != '%' then
      match DecodeURIComponent(s[1..])
      case None => None
      case Some(t) => Some([s[0]] + t)
    else
      match DecodeEscape(s)
      case None => None
      case Some(ck) =>
        match DecodeURIComponent(s[ck.1..])
        case None => None
        case Some(t) => Some([ck.0] + t)
  }

  lemma ByteAtPercentEncoded(b: Byte, rest: string)
    ensures ByteAt(PercentEncodeByte(b) + rest, 0) == Some(b)
  {
    var s := PercentEncodeByte(b) + rest;
    assert s[1] == HexDigit(b / 16) && s[2] == HexDigit(b % 16);
    HexValueOfDigit(b / 16);
    HexValueOfDigit(b % 16);
  }

  /** An escape read further into `before + here` is read from `here`. */
  lemma ByteAtShift(before: string, here: string, i: nat)
    ensures ByteAt(before + here, |before| + i) == ByteAt(here, i)
  {
    var s := before + here;
    if i + 3 <= |here| {
      assert s[|before| + i] == here[i] && s[|before| + i + 1] == here[i + 1] && s[|before| + i + 2] == here[i + 2];
    }
  }

  /** The `j`-th escape of the encoding of `bs` stands for `bs[j]`. */
  lemma {:induction false} PercentEncodeBytesAt(bs: seq<Byte>, rest: string, j: nat)
    requires j < |bs|
    ensures ByteAt(PercentEncodeBytes(bs) + rest, 3 * j) == Some(bs[j])
  {
    var head := PercentEncodeByte(bs[0]);
    var tail := PercentEncodeBytes(bs[1..]) + rest;
    assert PercentEncodeBytes(bs) + rest == head + tail;
    if j == 0 {
      ByteAtPercentEncoded(bs[0], tail);
    } else {
      PercentEncodeBytesAt(bs[1..], rest, j - 1);
      ByteAtShift(head, tail, 3 * (j - 1));
    }
  }

  /** One continuation escape read: its payload bits join the accumulator. */
  lemma DecodeContinuationStep(s: string, j: nat, n: nat, acc: int, b: Byte)
    requires j < n && ByteAt(s, 3 * j) == Some(b) && 0x80 <= b < 0xC0
    ensures DecodeContinuation(s, j, n, acc) == DecodeContinuation(s, j + 1, n, acc * 64 + (b as int - 0x80))
  {
  }

  lemma {:induction false} DecodeContinuationOfEncoded(bs: seq<Byte>, rest: string, j: nat, acc: int)
    requires 1 <= j <= |bs|
    requires forall k :: 1 <= k < |bs| ==> 0x80 <= bs[k] < 0xC0
    ensures DecodeContinuation(PercentEncodeBytes(bs) + rest, j, |bs|, acc) == Some(Fold(bs, j, acc))
    decreases |bs| - j
  {
    if j < |bs| {
      var s := PercentEncodeBytes(bs) + rest;
      var acc' := acc * 64 + (bs[j] as int - 0x80);
      PercentEncodeBytesAt(bs, rest, j);
      DecodeContinuationStep(s, j, |bs|, acc, bs[j]);
      DecodeContinuationOfEncoded(bs, rest, j + 1, acc');
    }
  }

  /** The value accumulated from continuation bytes `j ..` of `bs`, starting from `acc`. */
  function Fold(bs: seq<Byte>, j: nat, acc: int): int
    decreases |bs| - j
  {
    if j >= |bs| then acc else Fold(bs, j + 1, acc * 64 + (bs[j] as int - 0x80))
  }

  /** The lead byte of a multi-byte sequence announces its length, and the payload bits give back the code point. */
  lemma Utf8Decodes(c: char)
    ensures var bs := Utf8(c);
      (|bs| == 1 && bs[0] as int == c as int) || (|bs| == 2 && 0xC0 <= bs[0] < 0xE0 && c as int == Fold(bs, 1, bs[0] as int - 0xC0) && 0x80 <= c as int)
      || (|bs| == 3 && 0xE0 <= bs[0] < 0xF0 && c as int == Fold(bs, 1, bs[0] as int - 0xE0) && 0x800 <= c as int)
      || (|bs| == 4 && 0xF0 <= bs[0] < 0xF8 && c as int == Fold(bs, 1, bs[0] as int - 0xF0) && 0x1_0000 <= c as int)
  {
    var bs := Utf8(c);
    var v := c as int;
    var q1 := v / 64;
    var q2 := q1 / 64;
    var q3 := q2 / 64;
    assert v == q1 * 64 + v % 64;
    assert q1 == q2 * 64 + q1 % 64;
    assert q2 == q3 * 64 + q2 % 64;
    if |bs| == 2 {
      assert Fold(bs, 1, bs[0] as int - 0xC0) == q1 * 64 + v % 64;
    } else if |bs| == 3 {
      var a1: int := bs[0] as int - 0xE0;
      var a2 := a1 * 64 + (bs[1] as int - 0x80);
      assert Fold(bs, 3, a2 * 64 + (bs[2] as int - 0x80)) == a2 * 64 + (bs[2] as int - 0x80);
      assert Fold(bs, 1, a1) == Fold(bs, 2, a2);
    } else if |bs| == 4 {
      assert v <= 0x10_FFFF;
      assert q3 < 8;
      var a1: int := bs[0] as int - 0xF0;
      var a2 := a1 * 64 + (bs[1] as int - 0x80);
      var a3 := a2 * 64 + (bs[2] as int - 0x80);
      assert Fold(bs, 4, a3 * 64 + (bs[3] as int - 0x80)) == a3 * 64 + (bs[3] as int - 0x80);
      assert Fold(bs, 2, a2) == Fold(bs, 3, a3);
      assert Fold(bs, 1, a1) == Fold(bs, 2, a2);
    }
  }

  /** The escapes of a well-formed UTF-8 sequence for `c` decode to `c`. */
  lemma DecodeEscapeOfBytes(bs: seq<Byte>, c: char, rest: string)
    requires 1 <= |bs| <= 4 && (bs[0] < 0x80 <==> |bs| == 1)
    requires forall j :: 1 <= j < |bs| ==> 0x80 <= bs[j] < 0xC0
    requires (|bs| == 1 && bs[0] as int == c as int)
      || (|bs| == 2 && 0xC0 <= bs[0] < 0xE0 && c as int == Fold(bs, 1, bs[0] as int - 0xC0) && 0x80 <= c as int)
      || (|bs| == 3 && 0xE0 <= bs[0] < 0xF0 && c as int == Fold(bs, 1, bs[0] as int - 0xE0) && 0x800 <= c as int)
      || (|bs| == 4 && 0xF0 <= bs[0] < 0xF8 && c as int == Fold(bs, 1, bs[0] as int - 0xF0) && 0x1_0000 <= c as int)
    ensures DecodeEscape(PercentEncodeBytes(bs) + rest) == Some((c, 3 * |bs|))
  {
    var s := PercentEncodeBytes(bs) + rest;
    PercentEncodeBytesAt(bs, rest, 0);
    if |bs| > 1 {
      var lead := if |bs| == 2 then bs[0] as int - 0xC0 else if |bs| == 3 then bs[0] as int - 0xE0 else bs[0] as int - 0xF0;
      DecodeContinuationOfEncoded(bs, rest, 1, lead);
      assert DecodeContinuation(s, 1, |bs|, lead) == Some(c as int);
      assert 3 * |bs| <= |s|;
      assert !(c as int < MinCodePoint(|bs|));
      assert !(0x10_FFFF < c as int);
      assert !(0xD800 <= c as int < 0xE000);
      assert (c as int) as char == c;
    } else {
      assert ByteAt(s, 0) == Some(c as int);
    }
  }

  lemma DecodeEscapeOfEncoded(c: char, rest: string)
    ensures DecodeEscape(PercentEncodeBytes(Utf8(c)) + rest) == Some((c, 3 * |Utf8(c)|))
  {
    Utf8Decodes(c);
    DecodeEscapeOfBytes(Utf8(c), c, rest);
  }

  /** Decoding reads the encoding of one character off the front of its input. */
  lemma {:induction false} DecodeEncodedChar(c: char, tail: string)
    ensures DecodeURIComponent(EncodeChar(c) + tail) ==
      match DecodeURIComponent(tail)
      case None => None
      case Some(t) => Some([c] + t)
  {
    var e := EncodeChar(c) + tail;
    if IsUnreserved(c) {
      assert e[0] == c && e[1..] == tail;
    } else {
      DecodeEscapeOfEncoded(c, tail);
      assert e[3 * |Utf8(c)|..] == tail;
    }
  }

  /** decodeURIComponent undoes encodeURIComponent. */
  lemma {:induction false} DecodeEncode(s: string)
    ensures DecodeURIComponent(EncodeURIComponent(s)) == Some(s)
  {
    if s != [] {
      DecodeEncode(s[1..]);
      DecodeEncodedChar(s[0], EncodeURIComponent(s[1..]));
      assert [s[0]] + s[1..] == s;
    }
  }

  /** A string made of unreserved characters only is its own encoding. */
  lemma {:induction false} EncodeUnreservedIdentity(s: string)
    requires forall i :: 0 <= i < |s| ==> IsUnreserved(s[i])
    ensures EncodeURIComponent(s) == s
  {
    if s != [] {
      EncodeUnreservedIdentity(s[1..]);
    }
  }
}
