/** UTF-8, as `String.data(using: .utf8)` produces it (RFC 3629): each Unicode
    scalar value becomes one to four bytes. The strict decoder below accepts
    exactly the well-formed encodings (no overlong forms, no surrogates, nothing
    above U+10FFFF), so encoding and decoding are inverse to each other. */
module Utf8 {

  newtype byte = b: int | 0 <= b < 0x100

  datatype Option<T> = None | Some(value: T)

  /** A byte of the form 10xxxxxx. */
  predicate IsContinuation(b: byte) {
    0x80 <= b < 0xC0
  }

  /** The bytes that encode one scalar value. */
  function EncodeChar(c: char): (bytes: seq<byte>)
    ensures 1 <= |bytes| <= 4
    ensures |bytes| == 1 <==> (c as int) < 0x80
  {
    var v := c as int;
    if v < 0x80 then
      [v as byte]
    else if v < 0x800 then
      [(0xC0 + v / 64) as byte, (0x80 + v % 64) as byte]
    else if v < 0x1_0000 then
      [(0xE0 + v / 4096) as byte, (0x80 + v / 64 % 64) as byte, (0x80 + v % 64) as byte]
    else
      [(0xF0 + v / 262144) as byte, (0x80 + v / 4096 % 64) as byte,
       (0x80 + v / 64 % 64) as byte, (0x80 + v % 64) as byte]
  }

  /** The UTF-8 encoding of a string: one to four bytes per character, and one
      byte per character exactly when every character is ASCII. */
  function Encode(s: string): (bytes: seq<byte>)
    ensures |s| <= |bytes| <= 4 * |s|
    ensures |bytes| == |s| <==> forall i :: 0 <= i < |s| ==> (s[i] as int) < 0x80
    decreases |s|
  {
    if |s| == 0 then []
    else EncodeChar(s[0]) + Encode(s[1..])
  }

  /** Decodes the scalar value at the head of `b` and says how many bytes it
      took, or gives None when the head is not a well-formed encoding. */
  function DecodeChar(b: seq<byte>): (r: Option<(char, nat)>)
    ensures r.Some? ==> 1 <= r.value.1 <= |b| && r.value.1 <= 4
  {
    if |b| == 0 then None
    else if b[0] < 0x80 then Some(((b[0] as int) as char, 1))
    else if 0xC0 <= b[0] < 0xE0 then
      if |b| < 2 || !IsContinuation(b[1]) then None
      else
        var v := (b[0] as int - 0xC0) * 64 + (b[1] as int - 0x80);
        if v < 0x80 then None else Some((v as char, 2))
    else if 0xE0 <= b[0] < 0xF0 then
      if |b| < 3 || !IsContinuation(b[1]) || !IsContinuation(b[2]) then None
      else
        var v := (b[0] as int - 0xE0) * 4096 + (b[1] as int - 0x80) * 64 + (b[2] as int - 0x80);
        if v < 0x800 || 0xD800 <= v < 0xE000 then None else Some((v as char, 3))
    else if 0xF0 <= b[0] < 0xF8 then
      if |b| < 4 || !IsContinuation(b[1]) || !IsContinuation(b[2]) || !IsContinuation(b[3]) then None
      else
        var v := (b[0] as int - 0xF0) * 262144 + (b[1] as int - 0x80) * 4096
                 + (b[2] as int - 0x80) * 64 + (b[3] as int - 0x80);
        if v < 0x1_0000 || v >= 0x11_0000 then None else Some((v as char, 4))
    else None
  }

  /** Decodes a whole byte sequence, or gives None when it is not well-formed
      UTF-8. */
  function Decode(b: seq<byte>): Option<string>
    decreases |b|
  {
    if |b| == 0 then Some([])
    else match DecodeChar(b)
      case None => None
      case Some((c, n)) =>
        match Decode(b[n..])
        case None => None
        case Some(rest) => Some([c] + rest)
  }

  /** The decoder reads back the character that EncodeChar wrote, whatever
      follows it. */
  lemma DecodeEncodeChar(c: char, rest: seq<byte>)
    ensures DecodeChar(EncodeChar(c) + rest) == Some((c, |EncodeChar(c)|))
  {
    var v := c as int;
    var e := EncodeChar(c);
    var b := e + rest;
    assert b[..|e|] == e;
    if v < 0x80 {
    } else if v < 0x800 {
      DecodeEncode2(c, rest);
    } else if v < 0x1_0000 {
      DecodeEncode3(c, rest);
    } else {
      DecodeEncode4(c, rest);
    }
  }

  lemma DecodeEncode2(c: char, rest: seq<byte>)
    requires 0x80 <= c as int < 0x800
    ensures DecodeChar(EncodeChar(c) + rest) == Some((c, 2))
  {
  }

  lemma DecodeEncode3(c: char, rest: seq<byte>)
    requires 0x800 <= c as int < 0x1_0000
    ensures DecodeChar(EncodeChar(c) + rest) == Some((c, 3))
  {
  }

  lemma DecodeEncode4(c: char, rest: seq<byte>)
    requires 0x1_0000 <= c as int
    ensures DecodeChar(EncodeChar(c) + rest) == Some((c, 4))
  {
  }

  /** Whatever the decoder accepts at the head of `b` is exactly what
      EncodeChar writes for the decoded character. */
  lemma EncodeDecodeChar(b: seq<byte>)
    ensures DecodeChar(b).Some? ==> EncodeChar(DecodeChar(b).value.0) == b[..DecodeChar(b).value.1]
  {
    if DecodeChar(b).Some? {
      if b[0] < 0x80 {
      } else if b[0] < 0xE0 {
        Digits2(b[0] as int - 0xC0, b[1] as int - 0x80);
      } else if b[0] < 0xF0 {
        Digits3(b[0] as int - 0xE0, b[1] as int - 0x80, b[2] as int - 0x80);
      } else {
        Digits4(b[0] as int - 0xF0, b[1] as int - 0x80, b[2] as int - 0x80, b[3] as int - 0x80);
      }
    }
  }

  lemma Digits2(d1: int, d0: int)
    requires 0 <= d1 && 0 <= d0 < 64
    ensures (d1 * 64 + d0) / 64 == d1 && (d1 * 64 + d0) % 64 == d0
  {
  }

  lemma Digits3(d2: int, d1: int, d0: int)
    requires 0 <= d2 && 0 <= d1 < 64 && 0 <= d0 < 64
    ensures var v := d2 * 4096 + d1 * 64 + d0;
      v / 4096 == d2 && v / 64 % 64 == d1 && v % 64 == d0
  {
  }

  lemma Digits4(d3: int, d2: int, d1: int, d0: int)
    requires 0 <= d3 && 0 <= d2 < 64 && 0 <= d1 < 64 && 0 <= d0 < 64
    ensures var v := d3 * 262144 + d2 * 4096 + d1 * 64 + d0;
      v / 262144 == d3 && v / 4096 % 64 == d2 && v / 64 % 64 == d1 && v % 64 == d0
  {
    Digits2(d3 * 4096 + d2 * 64 + d1, d0);
    Digits3(d3 * 64 + d2, d1, d0);
    Digits3(d3, d2, d1);
  }

  /** Decoding an encoding gives the string back. */
  lemma {:induction false} DecodeEncode(s: string)
    ensures Decode(Encode(s)) == Some(s)
    decreases |s|
  {
    if |s| > 0 {
      var head := EncodeChar(s[0]);
      var tail := Encode(s[1..]);
      DecodeEncodeChar(s[0], tail);
      assert (head + tail)[|head|..] == tail;
      DecodeEncode(s[1..]);
      assert s == [s[0]] + s[1..];
    }
  }

  /** Every byte sequence the decoder accepts is the encoding of what it
      decodes to: the well-formed encoding of a string is unique. */
  lemma {:induction false} EncodeDecode(b: seq<byte>)
    ensures Decode(b).Some? ==> Encode(Decode(b).value) == b
    decreases |b|
  {
    if |b| > 0 && Decode(b).Some? {
      var c := DecodeChar(b).value.0;
      var n := DecodeChar(b).value.1;
      EncodeDecodeChar(b);
      EncodeDecode(b[n..]);
      var s := Decode(b).value;
      assert s[0] == c && s[1..] == Decode(b[n..]).value;
      assert b == b[..n] + b[n..];
    }
  }

  /** A string has exactly one well-formed UTF-8 encoding. */
  lemma EncodingUnique(s: string)
    ensures Decode(Encode(s)) == Some(s)
    ensures forall b :: Decode(b) == Some(s) ==> b == Encode(s)
  {
    DecodeEncode(s);
    forall b | Decode(b) == Some(s) ensures b == Encode(s) {
      EncodeDecode(b);
    }
  }
}
