/**
 * Percent-encoding of URI components (section 2.1 of RFC 3986).
 *
 * PercentDecode is Foundation's `removingPercentEncoding`: each
 * "%" HEXDIG HEXDIG triplet stands for one byte, every other character for
 * its UTF-8 bytes, and the resulting bytes must be well-formed UTF-8; a "%"
 * not followed by two hex digits, or ill-formed bytes, give None.
 *
 * PercentEncode is JavaScript's `encodeURIComponent`, which the browser
 * extension applies to the ticket identifier before calling the server: it
 * keeps ASCII letters, digits and `-_.!~*'()` and writes every other UTF-8
 * byte as an upper-case triplet.
 */
module Percent {
  import opened Wrappers
  import Utf8

  /** A hexadecimal digit of either case, as `%` escapes accept. */
  predicate IsHexDigit(c: char) {
    '0' <= c <= '9' || 'a' <= c <= 'f' || 'A' <= c <= 'F'
  }

  /** The value of one hexadecimal digit. */
  function HexValue(c: char): (d: nat)
    requires IsHexDigit(c)
    ensures d < 16
  {
    if '0' <= c <= '9' then c as int - '0' as int
    else if 'a' <= c <= 'f' then c as int - 'a' as int + 10
    else c as int - 'A' as int + 10
  }

  /** The upper-case hex digit of `d`. */
  function HexDigit(d: nat): (c: char)
    requires d < 16
    ensures IsHexDigit(c) && HexValue(c) == d
  {
    if d < 10 then ('0' as int + d) as char else ('A' as int + d - 10) as char
  }

  /** The bytes a percent-encoded string stands for. */
  function DecodeBytes(s: string): Option<Utf8.Bytes>
    decreases |s|
  {
    if |s| == 0 then Some([])
    else if s[0] == '%' then
      if |s| >= 3 && IsHexDigit(s[1]) && IsHexDigit(s[2]) then
        match DecodeBytes(s[3..])
        case None => None
        case Some(rest) => Some([(HexValue(s[1]) * 16 + HexValue(s[2])) as Utf8.byte] + rest)
      else None
    else
      match DecodeBytes(s[1..])
      case None => None
      case Some(rest) => Some(Utf8.EncodeChar(s[0]) + rest)
  }

  /** `removingPercentEncoding`. */
  function PercentDecode(s: string): Option<string> {
    match DecodeBytes(s)
    case None => None
    case Some(b) => Utf8.Decode(b)
  }

  /** A "%" at `i` that is not followed by two hexadecimal digits. */
  predicate BadEscapeAt(s: string, i: nat) {
    i < |s| && s[i] == '%' && !(i + 2 < |s| && IsHexDigit(s[i + 1]) && IsHexDigit(s[i + 2]))
  }

  /** Decoding fails exactly when some "%" does not start an escape; escapes
      take hexadecimal digits of either case. */
  lemma {:induction false} DecodeBytesFails(s: string)
    ensures DecodeBytes(s).None? <==> exists i: nat :: BadEscapeAt(s, i)
    decreases |s|
  {
    if |s| == 0 {
    } else if s[0] == '%' {
      if |s| >= 3 && IsHexDigit(s[1]) && IsHexDigit(s[2]) {
        DecodeBytesFails(s[3..]);
        assert !BadEscapeAt(s, 0) && !BadEscapeAt(s, 1) && !BadEscapeAt(s, 2);
        BadEscapeShift(s, 3);
      } else {
        assert BadEscapeAt(s, 0);
      }
    } else {
      DecodeBytesFails(s[1..]);
      assert !BadEscapeAt(s, 0);
      BadEscapeShift(s, 1);
    }
  }

  /** With no bad "%" before `k`, the bad ones of `s` are those of `s[k..]`. */
  lemma BadEscapeShift(s: string, k: nat)
    requires k <= |s|
    requires forall i: nat :: i < k ==> !BadEscapeAt(s, i)
    ensures (exists i: nat :: BadEscapeAt(s, i)) <==> (exists j: nat :: BadEscapeAt(s[k..], j))
  {
    forall j: nat ensures BadEscapeAt(s[k..], j) <==> BadEscapeAt(s, j + k) {
    }
    if i: nat :| BadEscapeAt(s, i) {
      assert BadEscapeAt(s[k..], i - k);
    }
  }

  /** `removingPercentEncoding` succeeds with `t` exactly when the escapes
      decode to the UTF-8 bytes of `t`. */
  lemma PercentDecodeBytes(s: string, t: string)
    ensures PercentDecode(s) == Some(t) <==> DecodeBytes(s) == Some(Utf8.Encode(t))
  {
    match DecodeBytes(s)
    case None =>
    case Some(b) =>
      if Utf8.Decode(b) == Some(t) {
        Utf8.EncodeDecode(b);
      }
      if b == Utf8.Encode(t) {
        Utf8.DecodeEncode(t);
      }
  }

  /** Escapes are read in either case: `%c3%a9` and `%C3%A9` both stand for
      the bytes 0xC3, 0xA9, which are the UTF-8 of U+00E9. */
  lemma LowerCaseEscapes()
    ensures DecodeBytes("%c3%a9") == DecodeBytes("%C3%A9") == Some([0xC3, 0xA9])
    ensures PercentDecode("%c3%a9") == Some("\U{E9}")
  {
    var low: Utf8.Bytes := [0xA9];
    var both: Utf8.Bytes := [0xC3, 0xA9];
    assert low == [0xA9] + [] && both == [0xC3] + low;
    EscapeOf("%a9", [], 0xA9);
    EscapeOf("%A9", [], 0xA9);
    assert "%c3%a9"[3..] == "%a9" && "%C3%A9"[3..] == "%A9";
    EscapeOf("%c3%a9", low, 0xC3);
    EscapeOf("%C3%A9", low, 0xC3);
    assert Utf8.EncodeChar('\U{E9}') == [0xC3, 0xA9];
    assert Utf8.Encode("\U{E9}") == [0xC3, 0xA9];
    PercentDecodeBytes("%c3%a9", "\U{E9}");
  }

  /** One escape at the front, followed by text that decodes to `tail`. */
  lemma EscapeOf(s: string, tail: Utf8.Bytes, x: Utf8.byte)
    requires |s| >= 3 && s[0] == '%' && IsHexDigit(s[1]) && IsHexDigit(s[2])
    requires HexValue(s[1]) * 16 + HexValue(s[2]) == x as int
    requires DecodeBytes(s[3..]) == Some(tail)
    ensures DecodeBytes(s) == Some([x] + tail)
  {
  }

  /** Text without a "%" stands for its own UTF-8 bytes. */
  lemma {:induction false} DecodeBytesPlain(s: string)
    requires '%' !in s
    ensures DecodeBytes(s) == Some(Utf8.Encode(s))
    decreases |s|
  {
    if |s| > 0 {
      assert '%' !in s[1..] by { assert forall i :: 0 <= i < |s| - 1 ==> s[1..][i] == s[i + 1]; }
      DecodeBytesPlain(s[1..]);
    }
  }

  /** Decoding leaves text without a "%" unchanged. */
  lemma PercentDecodePlain(s: string)
    requires '%' !in s
    ensures PercentDecode(s) == Some(s)
  {
    DecodeBytesPlain(s);
    Utf8.DecodeEncode(s);
  }

  /** The characters `encodeURIComponent` leaves as they are. */
  predicate IsKept(c: char) {
    'A' <= c <= 'Z' || 'a' <= c <= 'z' || '0' <= c <= '9'
    || c == '-' || c == '_' || c == '.' || c == '!' || c == '~'
    || c == '*' || c == '\'' || c == '(' || c == ')'
  }

  /** Each byte either as the kept character it is, or as a "%XX" triplet. */
  function EncodeBytes(b: Utf8.Bytes): (r: string)
    ensures forall i :: 0 <= i < |r| ==> IsKept(r[i]) || r[i] == '%'
    ensures |r| == 0 <==> |b| == 0
  {
    if |b| == 0 then []
    else
      var c := (b[0] as int) as char;
      var first := if IsKept(c) then [c] else ['%', HexDigit(b[0] as int / 16), HexDigit(b[0] as int % 16)];
      first + EncodeBytes(b[1..])
  }

  /** `encodeURIComponent`. */
  function PercentEncode(s: string): (r: string)
    ensures forall i :: 0 <= i < |r| ==> IsKept(r[i]) || r[i] == '%'
    ensures |r| == 0 <==> |s| == 0
  {
    EncodeBytes(Utf8.Encode(s))
  }

  /** Decoding the `%` form of a byte string gives the bytes back. */
  lemma {:induction false} DecodeEncodeBytes(b: Utf8.Bytes)
    ensures DecodeBytes(EncodeBytes(b)) == Some(b)
    decreases |b|
  {
    if |b| > 0 {
      var c := (b[0] as int) as char;
      var rest := EncodeBytes(b[1..]);
      DecodeEncodeBytes(b[1..]);
      if IsKept(c) {
        assert EncodeBytes(b) == [c] + rest;
        DecodeKept(b[0], rest, b[1..]);
      } else {
        assert EncodeBytes(b) == ['%', HexDigit(b[0] as int / 16), HexDigit(b[0] as int % 16)] + rest;
        DecodeTriplet(b[0], rest, b[1..]);
      }
      assert b == [b[0]] + b[1..];
    }
  }

  /** A kept character stands for its own byte. */
  lemma DecodeKept(x: Utf8.byte, rest: string, tail: Utf8.Bytes)
    requires IsKept((x as int) as char) && DecodeBytes(rest) == Some(tail)
    ensures DecodeBytes([(x as int) as char] + rest) == Some([x] + tail)
  {
    var s := [(x as int) as char] + rest;
    assert s[0] == (x as int) as char && s[1..] == rest;
  }

  /** A "%" triplet stands for the byte its two hex digits spell. */
  lemma DecodeTriplet(x: Utf8.byte, rest: string, tail: Utf8.Bytes)
    requires DecodeBytes(rest) == Some(tail)
    ensures DecodeBytes(['%', HexDigit(x as int / 16), HexDigit(x as int % 16)] + rest) == Some([x] + tail)
  {
    var s := ['%', HexDigit(x as int / 16), HexDigit(x as int % 16)] + rest;
    assert s[1] == HexDigit(x as int / 16) && s[2] == HexDigit(x as int % 16) && s[3..] == rest;
  }

  /** Round trip: the server decodes what the extension encodes. */
  lemma PercentRoundTrip(s: string)
    ensures PercentDecode(PercentEncode(s)) == Some(s)
  {
    DecodeEncodeBytes(Utf8.Encode(s));
    Utf8.DecodeEncode(s);
  }
}
