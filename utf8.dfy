/**
 * UTF-8 as defined in section 3 of RFC 3629: the encoding that
 * String.getBytes(StandardCharsets.UTF_8) applies to the credential text.
 * A Dafny char is a Unicode scalar value, so every char has an encoding.
 */
module Utf8 {
  import opened Wrappers

  /** An octet. */
  type Byte = b: int | 0 <= b < 0x100

  /** True when b is a continuation octet 10xxxxxx. */
  predicate IsContinuation(b: Byte) {
    0x80 <= b < 0xC0
  }

  /** The octets of one scalar value (the table in section 3 of RFC 3629). */
  function EncodeChar(c: char): (bytes: seq<Byte>)
    ensures 1 <= |bytes| <= 4
    ensures c as int < 0x80 <==> |bytes| == 1
    ensures c as int < 0x80 ==> bytes == [c as int]
    ensures c as int >= 0x80 ==> forall i :: 0 <= i < |bytes| ==> bytes[i] >= 0x80
  {
    var cp := c as int;
    if cp < 0x80 then
      [cp]
    else if cp < 0x800 then
      [0xC0 + cp / 0x40, 0x80 + cp % 0x40]
    else if cp < 0x1_0000 then
      [0xE0 + cp / 0x1000, 0x80 + (cp / 0x40) % 0x40, 0x80 + cp % 0x40]
    else
      [0xF0 + cp / 0x4_0000, 0x80 + (cp / 0x1000) % 0x40, 0x80 + (cp / 0x40) % 0x40, 0x80 + cp % 0x40]
  }

  /** The octets of a string: the encodings of its chars, in order. */
  function Encode(s: string): (bytes: seq<Byte>)
    ensures |s| <= |bytes| <= 4 * |s|
  {
    if s == [] then [] else EncodeChar(s[0]) + Encode(s[1..])
  }

  /**
   * Decodes the first scalar value of `bytes`, giving it with the number of
   * octets it took; None when `bytes` does not start with a well-formed
   * sequence (overlong forms, surrogates and values past U+10FFFF are refused).
   */
  function DecodeChar(bytes: seq<Byte>): (r: Option<(char, nat)>)
    ensures r.Some? ==> 1 <= r.value.1 <= |bytes| && r.value.1 <= 4
  {
    if |bytes| == 0 then None
    else
      var b0 := bytes[0] as int;
      if b0 < 0x80 then
        Some((b0 as char, 1))
      else if 0xC2 <= b0 < 0xE0 then
        if |bytes| < 2 || !IsContinuation(bytes[1]) then None
        else Some((((b0 - 0xC0) * 0x40 + (bytes[1] as int - 0x80)) as char, 2))
      else if 0xE0 <= b0 < 0xF0 then
        if |bytes| < 3 || !IsContinuation(bytes[1]) || !IsContinuation(bytes[2]) then None
        else
          var cp := (b0 - 0xE0) * 0x1000 + (bytes[1] as int - 0x80) * 0x40 + (bytes[2] as int - 0x80);
          if cp < 0x800 || 0xD800 <= cp < 0xE000 then None else Some((cp as char, 3))
      else if 0xF0 <= b0 < 0xF5 then
        if |bytes| < 4 || !IsContinuation(bytes[1]) || !IsContinuation(bytes[2]) || !IsContinuation(bytes[3]) then None
        else
          var cp := (b0 - 0xF0) * 0x4_0000 + (bytes[1] as int - 0x80) * 0x1000 + (bytes[2] as int - 0x80) * 0x40 + (bytes[3] as int - 0x80);
          if cp < 0x1_0000 || cp > 0x10_FFFF then None else Some((cp as char, 4))
      else
        None
  }

  /** Decodes a whole octet string; None unless it is well-formed UTF-8. */
  function Decode(bytes: seq<Byte>): (r: Option<string>)
    decreases |bytes|
  {
    if bytes == [] then Some([])
    else match DecodeChar(bytes)
      case None => None
      case Some((c, n)) =>
        match Decode(bytes[n..])
        case None => None
        case Some(rest) => Some([c] + rest)
  }

  /** Splits x into its quotient by 0x1000 and two 6-bit digits. */
  lemma SixBitDigits(x: nat)
    ensures x / 0x1000 == (x / 0x40) / 0x40
    ensures x == (x / 0x1000) * 0x1000 + ((x / 0x40) % 0x40) * 0x40 + x % 0x40
  {
    var q := x / 0x40;
    assert x == q * 0x40 + x % 0x40;
    assert q == (q / 0x40) * 0x40 + q % 0x40;
  }

  /** Decoding the encoding of c followed by anything gives back c and its length. */
  lemma DecodeEncodeChar(c: char, rest: seq<Byte>)
    ensures DecodeChar(EncodeChar(c) + rest) == Some((c, |EncodeChar(c)|))
  {
    var cp := c as int;
    if cp < 0x80 {
    } else if cp < 0x800 {
      DecodeTwo(c, rest);
    } else if cp < 0x1_0000 {
      DecodeThree(c, rest);
    } else {
      DecodeFour(c, rest);
    }
  }

  lemma DecodeTwo(c: char, rest: seq<Byte>)
    requires 0x80 <= c as int < 0x800
    ensures DecodeChar(EncodeChar(c) + rest) == Some((c, 2))
  {
    var cp := c as int;
    var bytes := EncodeChar(c) + rest;
    assert bytes[0] == 0xC0 + cp / 0x40 && bytes[1] == 0x80 + cp % 0x40;
    assert cp == (cp / 0x40) * 0x40 + cp % 0x40;
  }

  lemma DecodeThree(c: char, rest: seq<Byte>)
    requires 0x800 <= c as int < 0x1_0000
    ensures DecodeChar(EncodeChar(c) + rest) == Some((c, 3))
  {
    var cp := c as int;
    var bytes := EncodeChar(c) + rest;
    assert bytes[0] == 0xE0 + cp / 0x1000;
    assert bytes[1] == 0x80 + (cp / 0x40) % 0x40 && bytes[2] == 0x80 + cp % 0x40;
    SixBitDigits(cp);
    var v := (bytes[0] as int - 0xE0) * 0x1000 + (bytes[1] as int - 0x80) * 0x40 + (bytes[2] as int - 0x80);
    assert v == cp;
  }

  lemma DecodeFour(c: char, rest: seq<Byte>)
    requires 0x1_0000 <= c as int
    ensures DecodeChar(EncodeChar(c) + rest) == Some((c, 4))
  {
    var cp := c as int;
    var bytes := EncodeChar(c) + rest;
    assert bytes[0] == 0xF0 + cp / 0x4_0000;
    assert bytes[1] == 0x80 + (cp / 0x1000) % 0x40;
    assert bytes[2] == 0x80 + (cp / 0x40) % 0x40 && bytes[3] == 0x80 + cp % 0x40;
    FourDigits(cp);
  }

  /** A supplementary code point is its leading digit and three 6-bit digits. */
  lemma FourDigits(cp: nat)
    requires 0x1_0000 <= cp < 0x11_0000
    ensures cp / 0x4_0000 < 5
    ensures cp == (cp / 0x4_0000) * 0x4_0000 + ((cp / 0x1000) % 0x40) * 0x1000 + ((cp / 0x40) % 0x40) * 0x40 + cp % 0x40
  {
    SixBitDigits(cp);
    SixBitDigits(cp / 0x40);
    assert cp / 0x1000 == (cp / 0x4_0000) * 0x40 + (cp / 0x1000) % 0x40;
  }

  /** UTF-8 decoding inverts the encoder: getBytes loses nothing. */
  lemma {:induction false} DecodeEncode(s: string)
    ensures Decode(Encode(s)) == Some(s)
  {
    if s != [] {
      var e := EncodeChar(s[0]);
      DecodeEncodeChar(s[0], Encode(s[1..]));
      assert Encode(s)[|e|..] == Encode(s[1..]);
      DecodeEncode(s[1..]);
      assert [s[0]] + s[1..] == s;
    }
  }

  /** Encoding distributes over concatenation. */
  lemma {:induction false} EncodeConcat(a: string, b: string)
    ensures Encode(a + b) == Encode(a) + Encode(b)
  {
    if a != [] {
      var ab := a + b;
      assert ab != [] && ab[0] == a[0] && ab[1..] == a[1..] + b;
      EncodeConcat(a[1..], b);
      calc {
        Encode(ab);
        EncodeChar(a[0]) + Encode(a[1..] + b);
        EncodeChar(a[0]) + (Encode(a[1..]) + Encode(b));
        (EncodeChar(a[0]) + Encode(a[1..])) + Encode(b);
      }
    } else {
      assert a + b == b;
    }
  }

  /** Four pieces in a row: the encoding of each, in a row. */
  lemma EncodeParts(a: string, b: string, c: string, d: string)
    ensures Encode(a + b + c + d) == Encode(a) + Encode(b) + Encode(c) + Encode(d)
  {
    EncodeConcat(a + b + c, d);
    EncodeConcat(a + b, c);
    EncodeConcat(a, b);
  }

  /**
   * An ASCII octet occurs in the encoding of s exactly when its char occurs in s:
   * bytes of multi-octet sequences are all 0x80 or above.
   */
  lemma {:induction false} AsciiOccurs(s: string, x: Byte)
    requires x < 0x80
    ensures x in Encode(s) <==> x as char in s
  {
    if s != [] {
      AsciiOccurs(s[1..], x);
      assert Encode(s) == EncodeChar(s[0]) + Encode(s[1..]);
      assert s == [s[0]] + s[1..];
    }
  }

  /** True when every char of s is US-ASCII. */
  predicate IsAscii(s: string) {
    forall i :: 0 <= i < |s| ==> s[i] as int < 0x80
  }

  /** US-ASCII text is its own UTF-8 encoding, one octet per char. */
  lemma {:induction false} EncodeAscii(s: string)
    requires IsAscii(s)
    ensures Encode(s) == seq(|s|, i requires 0 <= i < |s| => s[i] as int)
  {
    if s != [] {
      EncodeAscii(s[1..]);
    }
  }
}
