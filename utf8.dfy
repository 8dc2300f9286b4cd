/**
 * UTF-8 as defined in RFC 3629. Foundation's `String(data:encoding: .utf8)`
 * is `Decode` (it fails on any ill-formed sequence) and `Data(s.utf8)` is
 * `Encode`. A `char` here is a Unicode scalar value.
 */
module Utf8 {
  import opened Wrappers

  newtype byte = x: int | 0 <= x < 256

  /** A byte string: `Data` in Foundation. */
  type Bytes = seq<byte>

  /** The bytes of one scalar value (RFC 3629, section 3). */
  function EncodeChar(c: char): (r: seq<byte>)
    ensures 1 <= |r| <= 4
    ensures |r| == 1 <==> c as int < 0x80
    ensures |r| == 1 ==> r[0] as int == c as int
    ensures |r| > 1 ==> forall i :: 0 <= i < |r| ==> r[i] >= 0x80
  {
    var n := c as int;
    if n < 0x80 then [n as byte]
    else if n < 0x800 then [(0xC0 + n / 64) as byte, (0x80 + n % 64) as byte]
    else if n < 0x10000 then
      [(0xE0 + n / 4096) as byte, (0x80 + n / 64 % 64) as byte, (0x80 + n % 64) as byte]
    else
      [(0xF0 + n / 262144) as byte, (0x80 + n / 4096 % 64) as byte,
       (0x80 + n / 64 % 64) as byte, (0x80 + n % 64) as byte]
  }

  /** `Data(s.utf8)`: the UTF-8 bytes of a string. */
  function Encode(s: string): (r: seq<byte>)
    ensures |r| >= |s|
    ensures |r| == 0 <==> |s| == 0
  {
    if |s| == 0 then [] else EncodeChar(s[0]) + Encode(s[1..])
  }

  /** A continuation byte, 10xxxxxx. */
  predicate IsCont(b: byte) {
    0x80 <= b < 0xC0
  }

  /** The first scalar value encoded at the start of `b` and the number of
      bytes it takes, or None when `b` does not start with a well-formed
      sequence (overlong forms, surrogates and values past U+10FFFF are
      ill-formed). */
  function DecodeFirst(b: seq<byte>): (r: Option<(char, nat)>)
    requires |b| > 0
    ensures r.Some? ==> 1 <= r.value.1 <= |b| && r.value.1 <= 4
  {
    var b0 := b[0] as int;
    if b0 < 0x80 then Some((b0 as char, 1))
    else if 0xC0 <= b0 < 0xE0 && |b| >= 2 && IsCont(b[1]) then
      var cp := (b0 - 0xC0) * 64 + (b[1] as int - 0x80);
      if cp >= 0x80 then Some((cp as char, 2)) else None
    else if 0xE0 <= b0 < 0xF0 && |b| >= 3 && IsCont(b[1]) && IsCont(b[2]) then
      var cp := (b0 - 0xE0) * 4096 + (b[1] as int - 0x80) * 64 + (b[2] as int - 0x80);
      if cp >= 0x800 && !(0xD800 <= cp < 0xE000) then Some((cp as char, 3)) else None
    else if 0xF0 <= b0 < 0xF8 && |b| >= 4 && IsCont(b[1]) && IsCont(b[2]) && IsCont(b[3]) then
      var cp := (b0 - 0xF0) * 262144 + (b[1] as int - 0x80) * 4096
                + (b[2] as int - 0x80) * 64 + (b[3] as int - 0x80);
      if 0x10000 <= cp < 0x110000 then Some((cp as char, 4)) else None
    else None
  }

  /** `String(data: b, encoding: .utf8)`. */
  function Decode(b: seq<byte>): Option<string>
    decreases |b|
  {
    if |b| == 0 then Some([])
    else
      match DecodeFirst(b)
      case None => None
      case Some((c, n)) =>
        match Decode(b[n..])
        case None => None
        case Some(rest) => Some([c] + rest)
  }

  /** Encoding distributes over concatenation. */
  lemma {:induction false} EncodeAppend(a: string, b: string)
    ensures Encode(a + b) == Encode(a) + Encode(b)
    decreases |a|
  {
    if |a| == 0 {
      assert a + b == b;
    } else {
      assert (a + b)[0] == a[0];
      assert (a + b)[1..] == a[1..] + b;
      EncodeAppend(a[1..], b);
    }
  }

  /** Decoding recovers a scalar value from its encoding, whatever follows. */
  lemma DecodeFirstEncodeChar(c: char, rest: seq<byte>)
    ensures DecodeFirst(EncodeChar(c) + rest) == Some((c, |EncodeChar(c)|))
  {
    var n := c as int;
    if n < 0x80 {
    } else if n < 0x800 {
      DecodeTwo(c, rest);
    } else if n < 0x10000 {
      DecodeThree(c, rest);
    } else {
      DecodeFour(c, rest);
    }
  }

  /** Division by 4096 and by 262144 are repeated division by 64. */
  lemma DivDiv(n: int)
    requires n >= 0
    ensures n / 4096 == n / 64 / 64
    ensures n / 262144 == n / 4096 / 64
  {
    var q, r := n / 64, n % 64;
    var q2, r2 := q / 64, q % 64;
    assert n == q2 * 4096 + (r2 * 64 + r);
    DivMod4096(q2, r2 * 64 + r);
    var q3, r3 := q2 / 64, q2 % 64;
    assert n == q3 * 262144 + (r3 * 4096 + r2 * 64 + r);
    DivMod262144(q3, r3 * 4096 + r2 * 64 + r);
  }

  /** The two-byte case. */
  lemma DecodeTwo(c: char, rest: seq<byte>)
    requires 0x80 <= c as int < 0x800
    ensures DecodeFirst(EncodeChar(c) + rest) == Some((c, 2))
  {
    var n := c as int;
    var b := EncodeChar(c) + rest;
    assert b[0] as int == 0xC0 + n / 64 && b[1] as int == 0x80 + n % 64;
    assert n == (n / 64) * 64 + n % 64;
  }

  /** The three-byte case. */
  lemma DecodeThree(c: char, rest: seq<byte>)
    requires 0x800 <= c as int < 0x10000
    ensures DecodeFirst(EncodeChar(c) + rest) == Some((c, 3))
  {
    var n := c as int;
    var b := EncodeChar(c) + rest;
    DivDiv(n);
    assert b[0] as int == 0xE0 + n / 4096;
    assert b[1] as int == 0x80 + n / 64 % 64 && b[2] as int == 0x80 + n % 64;
    assert n / 64 == (n / 4096) * 64 + n / 64 % 64;
    assert n == (n / 64) * 64 + n % 64;
  }

  /** The four-byte case. */
  lemma DecodeFour(c: char, rest: seq<byte>)
    requires 0x10000 <= c as int
    ensures DecodeFirst(EncodeChar(c) + rest) == Some((c, 4))
  {
    var n := c as int;
    var b := EncodeChar(c) + rest;
    DivDiv(n);
    assert b[0] as int == 0xF0 + n / 262144;
    assert b[1] as int == 0x80 + n / 4096 % 64;
    assert b[2] as int == 0x80 + n / 64 % 64 && b[3] as int == 0x80 + n % 64;
    assert n / 4096 == (n / 262144) * 64 + n / 4096 % 64;
    assert n / 64 == (n / 4096) * 64 + n / 64 % 64;
    assert n == (n / 64) * 64 + n % 64;
  }

  /** Round trip: decoding the encoding of a string gives the string back. */
  lemma {:induction false} DecodeEncode(s: string)
    ensures Decode(Encode(s)) == Some(s)
    decreases |s|
  {
    if |s| > 0 {
      var e := EncodeChar(s[0]);
      DecodeFirstEncodeChar(s[0], Encode(s[1..]));
      assert (e + Encode(s[1..]))[|e|..] == Encode(s[1..]);
      DecodeEncode(s[1..]);
      assert [s[0]] + s[1..] == s;
    }
  }

  /** Division by 64 undoes `q * 64 + r`. */
  lemma DivMod64(q: int, r: int)
    requires q >= 0 && 0 <= r < 64
    ensures (q * 64 + r) / 64 == q && (q * 64 + r) % 64 == r
  {
  }

  /** Division by 4096 undoes `q * 4096 + r`. */
  lemma DivMod4096(q: int, r: int)
    requires q >= 0 && 0 <= r < 4096
    ensures (q * 4096 + r) / 4096 == q
  {
  }

  /** Division by 262144 undoes `q * 262144 + r`. */
  lemma DivMod262144(q: int, r: int)
    requires q >= 0 && 0 <= r < 262144
    ensures (q * 262144 + r) / 262144 == q
  {
  }

  /** A well-formed sequence is the encoding of its first scalar value. */
  lemma EncodeCharDecodeFirst(b: seq<byte>)
    requires |b| > 0 && DecodeFirst(b).Some?
    ensures EncodeChar(DecodeFirst(b).value.0) == b[..DecodeFirst(b).value.1]
  {
    var b0 := b[0] as int;
    if b0 < 0x80 {
    } else if b0 < 0xE0 {
      EncodeTwo(b);
    } else if b0 < 0xF0 {
      EncodeThree(b);
    } else {
      EncodeFour(b);
    }
  }

  /** The two-byte case. */
  lemma EncodeTwo(b: seq<byte>)
    requires |b| > 0 && DecodeFirst(b).Some? && 0x80 <= b[0] < 0xE0
    ensures EncodeChar(DecodeFirst(b).value.0) == b[..2]
  {
    var x0, x1 := b[0] as int - 0xC0, b[1] as int - 0x80;
    var n := DecodeFirst(b).value.0 as int;
    assert n == x0 * 64 + x1;
    DivMod64(x0, x1);
  }

  /** The three-byte case. */
  lemma EncodeThree(b: seq<byte>)
    requires |b| > 0 && DecodeFirst(b).Some? && 0xE0 <= b[0] < 0xF0
    ensures EncodeChar(DecodeFirst(b).value.0) == b[..3]
  {
    var x0, x1, x2 := b[0] as int - 0xE0, b[1] as int - 0x80, b[2] as int - 0x80;
    var n := DecodeFirst(b).value.0 as int;
    assert n == (x0 * 64 + x1) * 64 + x2;
    DivMod64(x0 * 64 + x1, x2);
    DivMod64(x0, x1);
    assert n == x0 * 4096 + (x1 * 64 + x2);
    DivMod4096(x0, x1 * 64 + x2);
  }

  /** The four-byte case. */
  lemma EncodeFour(b: seq<byte>)
    requires |b| > 0 && DecodeFirst(b).Some? && 0xF0 <= b[0]
    ensures EncodeChar(DecodeFirst(b).value.0) == b[..4]
  {
    var x0, x1, x2, x3 := b[0] as int - 0xF0, b[1] as int - 0x80, b[2] as int - 0x80, b[3] as int - 0x80;
    var n := DecodeFirst(b).value.0 as int;
    var hi := x0 * 64 + x1;
    assert n == (hi * 64 + x2) * 64 + x3;
    DivMod64(hi * 64 + x2, x3);
    DivMod64(hi, x2);
    assert n == hi * 4096 + (x2 * 64 + x3);
    DivMod4096(hi, x2 * 64 + x3);
    DivMod64(x0, x1);
    assert n == x0 * 262144 + (x1 * 4096 + x2 * 64 + x3);
    DivMod262144(x0, x1 * 4096 + x2 * 64 + x3);
  }

  /** Decoding a non-empty sequence decodes its first scalar value, then
      the rest. */
  lemma DecodeStep(b: seq<byte>)
    requires |b| > 0 && Decode(b).Some?
    ensures DecodeFirst(b).Some?
    ensures Decode(b[DecodeFirst(b).value.1..]).Some?
    ensures Decode(b).value == [DecodeFirst(b).value.0] + Decode(b[DecodeFirst(b).value.1..]).value
  {
  }

  /** Encoding a string is encoding its first character, then the rest. */
  lemma EncodeCons(c: char, rest: string)
    ensures Encode([c] + rest) == EncodeChar(c) + Encode(rest)
  {
    assert ([c] + rest)[0] == c && ([c] + rest)[1..] == rest;
  }

  /** The other direction: a byte sequence that decodes is the encoding of
      what it decodes to, so Decode accepts exactly the encodings. */
  lemma {:induction false} EncodeDecode(b: seq<byte>)
    requires Decode(b).Some?
    ensures Encode(Decode(b).value) == b
    decreases |b|
  {
    if |b| > 0 {
      DecodeStep(b);
      var c, n := DecodeFirst(b).value.0, DecodeFirst(b).value.1;
      var rest := Decode(b[n..]).value;
      EncodeCharDecodeFirst(b);
      EncodeDecode(b[n..]);
      Reassemble(b, n, c, rest);
    }
  }

  /** A first character encoded as the first `n` bytes and a rest encoded
      as the others make up the whole sequence. */
  lemma Reassemble(b: seq<byte>, n: nat, c: char, rest: string)
    requires n <= |b| && EncodeChar(c) == b[..n] && Encode(rest) == b[n..]
    ensures Encode([c] + rest) == b
  {
    EncodeCons(c, rest);
    assert b == b[..n] + b[n..];
  }

  /** An ASCII character absent from a string is absent from its encoding:
      multi-byte sequences use only bytes 0x80 and above. */
  lemma {:induction false} EncodeAvoidsAscii(s: string, c: char)
    requires c as int < 0x80 && c !in s
    ensures (c as int) as byte !in Encode(s)
    decreases |s|
  {
    if |s| > 0 {
      assert c !in s[1..] by { assert forall i :: 0 <= i < |s| - 1 ==> s[1..][i] == s[i + 1]; }
      EncodeAvoidsAscii(s[1..], c);
      var e := EncodeChar(s[0]);
      assert (c as int) as byte !in e;
    }
  }

  /** An ASCII-only string encodes to one byte per character. */
  lemma {:induction false} EncodeAscii(s: string)
    requires forall i :: 0 <= i < |s| ==> s[i] as int < 0x80
    ensures |Encode(s)| == |s|
    ensures forall i :: 0 <= i < |s| ==> Encode(s)[i] as int == s[i] as int
    decreases |s|
  {
    if |s| > 0 {
      EncodeAscii(s[1..]);
    }
  }
}
