/**
 * `QUrl.toPercentEncoding` with its default arguments: the unreserved bytes
 * of section 2.3 of RFC 3986 (ALPHA, DIGIT, "-", ".", "_", "~") are kept,
 * every other byte becomes "%" and two upper-case hexadecimal digits
 * (section 2.1 of RFC 3986). Decode is the inverse a server applies.
 */
module PercentEncoding {
  import opened Wrappers
  import opened Text

  /** Section 2.3 of RFC 3986, on byte values. */
  predicate IsUnreserved(b: byte) {
    ('A' as int <= b <= 'Z' as int) || ('a' as int <= b <= 'z' as int)
    || ('0' as int <= b <= '9' as int)
    || b == '-' as int || b == '.' as int || b == '_' as int || b == '~' as int
  }

  const HexDigits: string := "0123456789ABCDEF"

  /** A digit or an upper-case letter from A to F. */
  predicate IsUpperHex(c: char) {
    '0' <= c <= '9' || 'A' <= c <= 'F'
  }

  /** The characters one byte becomes: itself, or "%" and two upper-case
      hexadecimal digits. */
  function EncodeByte(b: byte): (r: string)
    ensures IsUnreserved(b) ==> r == [b as char]
    ensures !IsUnreserved(b) ==> |r| == 3 && r[0] == '%'
    ensures !IsUnreserved(b) ==> IsUpperHex(r[1]) && IsUpperHex(r[2])
  {
    if IsUnreserved(b) then [b as char]
    else
      HexDigitsAreUpper(b / 16);
      HexDigitsAreUpper(b % 16);
      ['%', HexDigits[b / 16], HexDigits[b % 16]]
  }

  lemma HexDigitsAreUpper(n: nat)
    requires n < 16
    ensures IsUpperHex(HexDigits[n])
  {
  }

  /** `QUrl.toPercentEncoding` on bytes: at least one character per byte,
      and exactly one per byte only when no byte needs escaping. */
  function Encode(bs: seq<byte>): (r: string)
    ensures |bs| <= |r|
    ensures |r| == |bs| <==> forall i :: 0 <= i < |bs| ==> IsUnreserved(bs[i])
  {
    if bs == [] then "" else EncodeByte(bs[0]) + Encode(bs[1..])
  }

  /** The value of a hexadecimal digit, in either case. */
  function HexValue(c: char): (r: Option<nat>)
    ensures r.Some? ==> r.value < 16
  {
    if '0' <= c <= '9' then Some(c as int - '0' as int)
    else if 'A' <= c <= 'F' then Some(c as int - 'A' as int + 10)
    else if 'a' <= c <= 'f' then Some(c as int - 'a' as int + 10)
    else None
  }

  /** The bytes a percent-encoded string stands for; None when a "%" is not
      followed by two hexadecimal digits or a character is not ASCII. */
  function Decode(s: string): (r: Option<seq<byte>>)
    decreases |s|
  {
    if s == [] then Some([])
    else if s[0] == '%' then
      if |s| >= 3 && HexValue(s[1]).Some? && HexValue(s[2]).Some? then
        match Decode(s[3..])
        case None => None
        case Some(rest) => Some([HexValue(s[1]).value * 16 + HexValue(s[2]).value] + rest)
      else None
    else if s[0] as int < 0x80 then
      match Decode(s[1..])
      case None => None
      case Some(rest) => Some([s[0] as int] + rest)
    else None
  }

  /** Decoding consumes the characters of one encoded byte and goes on. */
  lemma DecodePiece(b: byte, tail: string, rest: seq<byte>)
    requires Decode(tail) == Some(rest)
    ensures Decode(EncodeByte(b) + tail) == Some([b] + rest)
  {
    if IsUnreserved(b) {
      DecodePlain(b, tail, rest);
    } else {
      var hi, lo := b / 16, b % 16;
      HexDigitValue(hi);
      HexDigitValue(lo);
      DecodeEscape(HexDigits[hi], HexDigits[lo], tail, rest);
      assert hi * 16 + lo == b;
    }
  }

  /** An unreserved character reads as its own code. */
  lemma DecodePlain(b: byte, tail: string, rest: seq<byte>)
    requires IsUnreserved(b) && Decode(tail) == Some(rest)
    ensures Decode([b as char] + tail) == Some([b] + rest)
  {
    var s := [b as char] + tail;
    assert s[0] == b as char && s[1..] == tail;
  }

  /** An escape "%" h l reads as the byte with hexadecimal digits h and l. */
  lemma DecodeEscape(h: char, l: char, tail: string, rest: seq<byte>)
    requires HexValue(h).Some? && HexValue(l).Some? && Decode(tail) == Some(rest)
    ensures Decode(['%', h, l] + tail) == Some([HexValue(h).value * 16 + HexValue(l).value] + rest)
  {
    var s := ['%', h, l] + tail;
    assert s[0] == '%' && s[1] == h && s[2] == l && s[3..] == tail;
  }

  /** Each hexadecimal digit reads back as its value. */
  lemma HexDigitValue(n: nat)
    requires n < 16
    ensures HexValue(HexDigits[n]) == Some(n)
  {
  }

  /** Decoding an encoding gives back the bytes. */
  lemma {:induction false} DecodeEncode(bs: seq<byte>)
    ensures Decode(Encode(bs)) == Some(bs)
  {
    if bs != [] {
      DecodeEncode(bs[1..]);
      DecodePiece(bs[0], Encode(bs[1..]), bs[1..]);
      assert [bs[0]] + bs[1..] == bs;
    }
  }

  /** A character that may stand in a URL query as it is. */
  predicate IsUrlSafe(c: char) {
    (c as int < 256 && IsUnreserved(c as int)) || c == '%'
  }

  /** The hexadecimal digits are unreserved characters themselves. */
  lemma HexDigitsAreUrlSafe()
    ensures forall c :: c in HexDigits ==> IsUrlSafe(c)
  {
  }

  /** An encoding holds only unreserved characters and "%" (the hexadecimal
      digits are unreserved), so it can stand in a URL query unchanged. */
  lemma {:induction false} EncodedIsUrlSafe(bs: seq<byte>)
    ensures forall i :: 0 <= i < |Encode(bs)| ==> IsUrlSafe(Encode(bs)[i])
  {
    if bs != [] {
      EncodedIsUrlSafe(bs[1..]);
      var piece := EncodeByte(bs[0]);
      assert Encode(bs) == piece + Encode(bs[1..]);
      if !IsUnreserved(bs[0]) {
        HexDigitsAreUrlSafe();
        assert IsUrlSafe(piece[0]) && IsUrlSafe(piece[1]) && IsUrlSafe(piece[2]);
      }
      forall i | 0 <= i < |Encode(bs)|
        ensures IsUrlSafe(Encode(bs)[i])
      {
        if i >= |piece| {
          assert Encode(bs)[i] == Encode(bs[1..])[i - |piece|];
        }
      }
    }
  }

  /** Encoding works byte by byte, so it distributes over concatenation. */
  lemma {:induction false} EncodeConcat(a: seq<byte>, b: seq<byte>)
    ensures Encode(a + b) == Encode(a) + Encode(b)
  {
    if a == [] {
      assert a + b == b;
    } else {
      assert (a + b)[0] == a[0] && (a + b)[1..] == a[1..] + b;
      EncodeConcat(a[1..], b);
    }
  }

  /** Unreserved bytes pass through as the characters they code. */
  lemma {:induction false} EncodeUnreserved(bs: seq<byte>)
    requires forall i :: 0 <= i < |bs| ==> IsUnreserved(bs[i])
    ensures |Encode(bs)| == |bs|
    ensures forall i :: 0 <= i < |bs| ==> Encode(bs)[i] == bs[i] as char
  {
    if bs != [] {
      EncodeUnreserved(bs[1..]);
    }
  }
}
