/**
 * Base64 as defined in section 4 of RFC 4648: the standard alphabet with
 * '=' padding and no line breaks, which is what
 * java.util.Base64.getEncoder().encodeToString produces.
 */
module Base64 {
  import opened Wrappers
  import opened Utf8

  /** A 6-bit group, the value one output character stands for. */
  type Sextet = s: int | 0 <= s < 64

  /** The padding character. */
  const PAD: char := '='

  /** The 64 characters of the standard alphabet (Table 1 of RFC 4648). */
  predicate IsAlphabetChar(c: char) {
    ('A' <= c <= 'Z') || ('a' <= c <= 'z') || ('0' <= c <= '9') || c == '+' || c == '/'
  }

  /** The character Table 1 assigns to a 6-bit group. */
  function SextetChar(v: Sextet): char {
    if v < 26 then ('A' as int + v) as char
    else if v < 52 then ('a' as int + (v - 26)) as char
    else if v < 62 then ('0' as int + (v - 52)) as char
    else if v == 62 then '+'
    else '/'
  }

  /** The 6-bit group an alphabet character stands for; None for any other character. */
  function CharSextet(c: char): (r: Option<Sextet>)
    ensures r.Some? <==> IsAlphabetChar(c)
    ensures r.Some? ==> SextetChar(r.value) == c
  {
    if 'A' <= c <= 'Z' then Some(c as int - 'A' as int)
    else if 'a' <= c <= 'z' then Some(c as int - 'a' as int + 26)
    else if '0' <= c <= '9' then Some(c as int - '0' as int + 52)
    else if c == '+' then Some(62)
    else if c == '/' then Some(63)
    else None
  }

  /** Every group is written as an alphabet character. */
  lemma SextetAlphabet(v: Sextet)
    ensures IsAlphabetChar(SextetChar(v))
  {
  }

  /** Different groups get different characters: CharSextet inverts SextetChar. */
  lemma CharOfSextet(v: Sextet)
    ensures CharSextet(SextetChar(v)) == Some(v)
  {
  }

  /** Three octets become four characters. */
  function EncodeTriple(b0: Byte, b1: Byte, b2: Byte): string {
    [SextetChar(b0 / 4), SextetChar((b0 % 4) * 16 + b1 / 16), SextetChar((b1 % 16) * 4 + b2 / 64), SextetChar(b2 % 64)]
  }

  /** A final two octets become three characters and one '=' (zero bits fill the last group). */
  function EncodePair(b0: Byte, b1: Byte): string {
    [SextetChar(b0 / 4), SextetChar((b0 % 4) * 16 + b1 / 16), SextetChar((b1 % 16) * 4), PAD]
  }

  /** A final single octet becomes two characters and "==". */
  function EncodeSingle(b0: Byte): string {
    [SextetChar(b0 / 4), SextetChar((b0 % 4) * 16), PAD, PAD]
  }

  /** The encoding of an octet string, 24 bits at a time. */
  function Encode(data: seq<Byte>): (s: string)
  {
    if |data| == 0 then ""
    else if |data| == 1 then EncodeSingle(data[0])
    else if |data| == 2 then EncodePair(data[0], data[1])
    else EncodeTriple(data[0], data[1], data[2]) + Encode(data[3..])
  }

  /**
   * Decodes one 4-character quantum; `last` says whether it ends the input,
   * the only place padding may stand. Pad bits must be zero, so only the
   * canonical encoding of section 3.5 of RFC 4648 is accepted.
   */
  function DecodeQuantum(q: string, last: bool): (r: Option<seq<Byte>>)
    requires |q| == 4
    ensures r.Some? ==> 1 <= |r.value| <= 3 && (|r.value| < 3 ==> last)
  {
    var s0, s1, s2, s3 := CharSextet(q[0]), CharSextet(q[1]), CharSextet(q[2]), CharSextet(q[3]);
    if s0.None? || s1.None? then None
    else if s2.Some? && s3.Some? then
      Some([s0.value * 4 + s1.value / 16, (s1.value % 16) * 16 + s2.value / 4, (s2.value % 4) * 64 + s3.value])
    else if last && s2.Some? && q[3] == PAD && s2.value % 4 == 0 then
      Some([s0.value * 4 + s1.value / 16, (s1.value % 16) * 16 + s2.value / 4])
    else if last && q[2] == PAD && q[3] == PAD && s1.value % 16 == 0 then
      Some([s0.value * 4 + s1.value / 16])
    else None
  }

  /** Decodes a padded Base64 string; None unless it is the canonical encoding of some octets. */
  function Decode(s: string): (r: Option<seq<Byte>>)
  {
    if |s| == 0 then Some([])
    else if |s| < 4 then None
    else match DecodeQuantum(s[..4], |s| == 4)
      case None => None
      case Some(head) =>
        match Decode(s[4..])
        case None => None
        case Some(tail) => Some(head + tail)
  }

  /** A number below base * n is recovered from its quotient and remainder by n. */
  lemma Digits(hi: int, lo: int, n: int)
    requires n == 4 || n == 16 || n == 64
    requires 0 <= hi && 0 <= lo < n
    ensures (hi * n + lo) / n == hi && (hi * n + lo) % n == lo
  {
  }

  /** The arithmetic of one quantum: the four groups put back together give the three octets. */
  lemma TripleGroups(b0: Byte, b1: Byte, b2: Byte)
    ensures var s1, s2 := (b0 % 4) * 16 + b1 / 16, (b1 % 16) * 4 + b2 / 64;
            && (b0 / 4) * 4 + s1 / 16 == b0
            && (s1 % 16) * 16 + s2 / 4 == b1
            && (s2 % 4) * 64 + b2 % 64 == b2
  {
    Digits(b0 % 4, b1 / 16, 16);
    Digits(b1 % 16, b2 / 64, 4);
  }

  lemma DecodeTriple(b0: Byte, b1: Byte, b2: Byte, last: bool)
    ensures DecodeQuantum(EncodeTriple(b0, b1, b2), last) == Some([b0, b1, b2])
  {
    var s1, s2 := (b0 % 4) * 16 + b1 / 16, (b1 % 16) * 4 + b2 / 64;
    QuantumGroups(b0 / 4, s1, s2, b2 % 64, last);
    TripleGroups(b0, b1, b2);
  }

  /** Four alphabet characters decode to the three octets their groups spell. */
  lemma QuantumGroups(s0: Sextet, s1: Sextet, s2: Sextet, s3: Sextet, last: bool)
    ensures DecodeQuantum([SextetChar(s0), SextetChar(s1), SextetChar(s2), SextetChar(s3)], last)
         == Some([s0 * 4 + s1 / 16, (s1 % 16) * 16 + s2 / 4, (s2 % 4) * 64 + s3])
  {
    CharOfSextet(s0);
    CharOfSextet(s1);
    CharOfSextet(s2);
    CharOfSextet(s3);
  }

  lemma DecodePair(b0: Byte, b1: Byte)
    ensures DecodeQuantum(EncodePair(b0, b1), true) == Some([b0, b1])
  {
    var s1, s2 := (b0 % 4) * 16 + b1 / 16, (b1 % 16) * 4;
    var q := EncodePair(b0, b1);
    CharOfSextet(b0 / 4);
    CharOfSextet(s1);
    CharOfSextet(s2);
    assert CharSextet(q[0]) == Some(b0 / 4) && CharSextet(q[1]) == Some(s1) && CharSextet(q[2]) == Some(s2);
    assert CharSextet(q[3]) == None;
    TripleGroups(b0, b1, 0);
  }

  lemma DecodeSingle(b0: Byte)
    ensures DecodeQuantum(EncodeSingle(b0), true) == Some([b0])
  {
    var q := EncodeSingle(b0);
    CharOfSextet(b0 / 4);
    CharOfSextet((b0 % 4) * 16);
    assert CharSextet(q[0]) == Some(b0 / 4) && CharSextet(q[1]) == Some((b0 % 4) * 16);
    assert CharSextet(q[2]) == None && CharSextet(q[3]) == None;
    TripleGroups(b0, 0, 0);
  }

  /** Decode reads one quantum and then the rest. */
  lemma DecodeCons(q: string, rest: string, head: seq<Byte>, tail: seq<Byte>)
    requires |q| == 4
    requires DecodeQuantum(q, rest == []) == Some(head)
    requires Decode(rest) == Some(tail)
    ensures Decode(q + rest) == Some(head + tail)
  {
    var s := q + rest;
    assert s[..4] == q && s[4..] == rest;
  }

  lemma EncodeStep(data: seq<Byte>)
    requires |data| >= 3
    ensures Encode(data) == EncodeTriple(data[0], data[1], data[2]) + Encode(data[3..])
  {
  }

  /** A final quantum of one or two octets decodes back to them. */
  lemma DecodeEncodeShort(data: seq<Byte>)
    requires 1 <= |data| <= 2
    ensures Decode(Encode(data)) == Some(data)
  {
    var q := Encode(data);
    if |data| == 1 {
      DecodeSingle(data[0]);
      assert data == [data[0]];
    } else {
      DecodePair(data[0], data[1]);
      assert data == [data[0], data[1]];
    }
    DecodeCons(q, "", data, []);
    assert q + "" == q && data + [] == data;
  }

  /** Decoding inverts encoding: the receiver gets back exactly the octets sent. */
  lemma {:induction false} DecodeEncode(data: seq<Byte>)
    ensures Decode(Encode(data)) == Some(data)
  {
    if 1 <= |data| <= 2 {
      DecodeEncodeShort(data);
    } else if |data| >= 3 {
      var rest := data[3..];
      DecodeEncode(rest);
      EncodeStep(data);
      DecodeTripleCons(data[0], data[1], data[2], Encode(rest), rest);
      assert [data[0], data[1], data[2]] + rest == data;
    }
  }

  /** A full quantum in front of decodable text decodes to its three octets in front. */
  lemma DecodeTripleCons(b0: Byte, b1: Byte, b2: Byte, text: string, tail: seq<Byte>)
    requires Decode(text) == Some(tail)
    ensures Decode(EncodeTriple(b0, b1, b2) + text) == Some([b0, b1, b2] + tail)
  {
    DecodeTriple(b0, b1, b2, text == []);
    DecodeCons(EncodeTriple(b0, b1, b2), text, [b0, b1, b2], tail);
  }

  /** The arithmetic of one quantum read backwards: splitting the three octets gives the four groups again. */
  lemma GroupsTriple(s0: Sextet, s1: Sextet, s2: Sextet, s3: Sextet)
    ensures var b0, b1, b2 := s0 * 4 + s1 / 16, (s1 % 16) * 16 + s2 / 4, (s2 % 4) * 64 + s3;
            && b0 / 4 == s0 && (b0 % 4) * 16 + b1 / 16 == s1
            && (b1 % 16) * 4 + b2 / 64 == s2 && b2 % 64 == s3
  {
    Digits(s0, s1 / 16, 4);
    Digits(s1 % 16, s2 / 4, 16);
    Digits(s2 % 4, s3, 64);
  }

  /** Encoding what a full quantum decodes to gives the quantum back. */
  lemma EncodeFullQuantum(q: string, last: bool)
    requires |q| == 4 && DecodeQuantum(q, last).Some? && |DecodeQuantum(q, last).value| == 3
    ensures var h := DecodeQuantum(q, last).value; EncodeTriple(h[0], h[1], h[2]) == q
  {
    var c0, c1, c2, c3 := CharSextet(q[0]), CharSextet(q[1]), CharSextet(q[2]), CharSextet(q[3]);
    assert c0.Some? && c1.Some? && c2.Some? && c3.Some?;
    var s0, s1, s2, s3 := c0.value, c1.value, c2.value, c3.value;
    assert q == [SextetChar(s0), SextetChar(s1), SextetChar(s2), SextetChar(s3)];
    QuantumGroups(s0, s1, s2, s3, last);
    FullGroups(s0, s1, s2, s3);
  }

  /** Four groups are the encoding of the three octets they carry. */
  lemma FullGroups(s0: Sextet, s1: Sextet, s2: Sextet, s3: Sextet)
    ensures EncodeTriple(s0 * 4 + s1 / 16, (s1 % 16) * 16 + s2 / 4, (s2 % 4) * 64 + s3)
         == [SextetChar(s0), SextetChar(s1), SextetChar(s2), SextetChar(s3)]
  {
    GroupsTriple(s0, s1, s2, s3);
  }

  /** Encoding what a padded quantum decodes to gives the quantum back. */
  lemma EncodePaddedQuantum(q: string, last: bool)
    requires |q| == 4 && DecodeQuantum(q, last).Some? && |DecodeQuantum(q, last).value| < 3
    ensures Encode(DecodeQuantum(q, last).value) == q
  {
    var h := DecodeQuantum(q, last).value;
    var c0, c1, c2 := CharSextet(q[0]), CharSextet(q[1]), CharSextet(q[2]);
    assert c0.Some? && c1.Some? && q[3] == PAD;
    var s0: int, s1: int := c0.value, c1.value;
    if |h| == 2 {
      assert c2.Some?;
      var s2: int := c2.value;
      assert s2 % 4 == 0;
      assert h == [s0 * 4 + s1 / 16, (s1 % 16) * 16 + s2 / 4];
      PairGroups(s0, s1, s2);
      assert q == [SextetChar(s0), SextetChar(s1), SextetChar(s2), PAD];
    } else {
      assert q[2] == PAD && s1 % 16 == 0;
      assert h == [s0 * 4 + s1 / 16];
      SingleGroups(s0, s1);
      assert q == [SextetChar(s0), SextetChar(s1), PAD, PAD];
    }
  }

  /** Three groups whose last ends in two zero bits are the encoding of the two octets they carry. */
  lemma PairGroups(s0: Sextet, s1: Sextet, s2: Sextet)
    requires s2 % 4 == 0
    ensures Encode([s0 * 4 + s1 / 16, (s1 % 16) * 16 + s2 / 4]) == [SextetChar(s0), SextetChar(s1), SextetChar(s2), PAD]
  {
    GroupsTriple(s0, s1, s2, 0);
  }

  /** Two groups whose last ends in four zero bits are the encoding of the octet they carry. */
  lemma SingleGroups(s0: Sextet, s1: Sextet)
    requires s1 % 16 == 0
    ensures Encode([s0 * 4 + s1 / 16]) == [SextetChar(s0), SextetChar(s1), PAD, PAD]
  {
    GroupsTriple(s0, s1, 0, 0);
  }

  /** Encoding what a quantum decodes to, followed by more, gives the quantum followed by the rest's encoding. */
  lemma EncodeQuantum(q: string, last: bool, tail: seq<Byte>)
    requires |q| == 4 && DecodeQuantum(q, last).Some?
    requires |DecodeQuantum(q, last).value| < 3 ==> tail == []
    ensures Encode(DecodeQuantum(q, last).value + tail) == q + Encode(tail)
  {
    var h := DecodeQuantum(q, last).value;
    if |h| == 3 {
      EncodeFullQuantum(q, last);
      EncodeStep(h + tail);
      assert (h + tail)[..3] == h && (h + tail)[3..] == tail;
    } else {
      EncodePaddedQuantum(q, last);
      assert h + tail == h && q + Encode(tail) == q;
    }
  }

  /** Only canonical strings decode: whatever Decode accepts is the encoding of its result. */
  lemma {:induction false} EncodeDecode(s: string)
    requires Decode(s).Some?
    ensures Encode(Decode(s).value) == s
  {
    if |s| > 0 {
      var q, rest := s[..4], s[4..];
      var head := DecodeQuantum(q, |s| == 4).value;
      EncodeDecode(rest);
      assert |s| == 4 <==> rest == [];
      EncodeQuantum(q, |s| == 4, Decode(rest).value);
      assert q + rest == s;
    }
  }

  /** Decode and Encode are inverse bijections between octet strings and canonical Base64 text. */
  lemma DecodeIff(s: string, data: seq<Byte>)
    ensures Decode(s) == Some(data) <==> s == Encode(data)
  {
    if s == Encode(data) {
      DecodeEncode(data);
    }
    if Decode(s) == Some(data) {
      EncodeDecode(s);
    }
  }

  /** Encoding works 24 bits at a time: a prefix of whole groups of three encodes on its own. */
  lemma {:induction false} EncodeAppend(a: seq<Byte>, b: seq<Byte>)
    requires |a| % 3 == 0
    ensures Encode(a + b) == Encode(a) + Encode(b)
  {
    if |a| < 3 {
      assert a == [] && a + b == b;
    } else {
      EncodeAppend(a[3..], b);
      EncodeAppendStep(a, b);
    }
  }

  /** One step of EncodeAppend: a first full group in front of an appended pair. */
  lemma EncodeAppendStep(a: seq<Byte>, b: seq<Byte>)
    requires |a| >= 3
    requires Encode(a[3..] + b) == Encode(a[3..]) + Encode(b)
    ensures Encode(a + b) == Encode(a) + Encode(b)
  {
    EncodeStepAppend(a, b);
    EncodeStep(a);
  }

  /** The first group of a + b is the first group of a, when a has one. */
  lemma EncodeStepAppend(a: seq<Byte>, b: seq<Byte>)
    requires |a| >= 3
    ensures Encode(a + b) == EncodeTriple(a[0], a[1], a[2]) + Encode(a[3..] + b)
  {
    var ab := a + b;
    assert ab[0] == a[0] && ab[1] == a[1] && ab[2] == a[2] && ab[3..] == a[3..] + b;
    EncodeStep(ab);
  }

  /** Every three octets, or part of three, become four characters. */
  lemma {:induction false} EncodeLength(data: seq<Byte>)
    ensures |Encode(data)| == 4 * ((|data| + 2) / 3)
  {
    if |data| >= 3 {
      EncodeStep(data);
      EncodeLength(data[3..]);
      TripleLength(data[0], data[1], data[2], Encode(data[3..]), |data| - 3);
    }
  }

  /** A full quantum in front adds four characters for three octets. */
  lemma TripleLength(b0: Byte, b1: Byte, b2: Byte, text: string, n: nat)
    requires |text| == 4 * ((n + 2) / 3)
    ensures |EncodeTriple(b0, b1, b2) + text| == 4 * ((n + 3 + 2) / 3)
  {
  }

  /** The number of '=' characters that end the encoding of n octets. */
  function PadCount(n: nat): (p: nat)
    ensures p <= 2 && (p == 0 <==> n % 3 == 0) && (n + p) % 3 == 0
  {
    if n == 0 then 0 else if n == 1 then 2 else if n == 2 then 1 else PadCount(n - 3)
  }

  /** `s` is alphabet characters followed by exactly `p` padding characters. */
  predicate PaddedAlphabet(s: string, p: nat) {
    && p <= |s|
    && (forall i :: 0 <= i < |s| - p ==> IsAlphabetChar(s[i]))
    && (forall i :: |s| - p <= i < |s| ==> s[i] == PAD)
  }

  /** Four alphabet characters in front keep the shape. */
  lemma PaddedAlphabetCons(q: string, t: string, p: nat)
    requires |q| == 4 && forall i :: 0 <= i < 4 ==> IsAlphabetChar(q[i])
    requires PaddedAlphabet(t, p)
    ensures PaddedAlphabet(q + t, p)
  {
    var s := q + t;
    forall i | 0 <= i < |s| - p
      ensures IsAlphabetChar(s[i])
    {
      if i >= 4 { assert s[i] == t[i - 4]; }
    }
  }

  /**
   * The output uses only the alphabet, followed by exactly PadCount(|data|)
   * padding characters.
   */
  lemma {:induction false} EncodeAlphabet(data: seq<Byte>)
    ensures PaddedAlphabet(Encode(data), PadCount(|data|))
  {
    if |data| < 3 {
      ShortAlphabet(data);
    } else {
      var rest := data[3..];
      EncodeStep(data);
      EncodeAlphabet(rest);
      assert PadCount(|rest|) == PadCount(|data|);
      TripleAlphabet(data[0], data[1], data[2], Encode(rest), PadCount(|data|));
    }
  }

  /** A full quantum in front keeps the shape. */
  lemma TripleAlphabet(b0: Byte, b1: Byte, b2: Byte, text: string, p: nat)
    requires PaddedAlphabet(text, p)
    ensures PaddedAlphabet(EncodeTriple(b0, b1, b2) + text, p)
  {
    SextetAlphabet(b0 / 4);
    SextetAlphabet((b0 % 4) * 16 + b1 / 16);
    SextetAlphabet((b1 % 16) * 4 + b2 / 64);
    SextetAlphabet(b2 % 64);
    PaddedAlphabetCons(EncodeTriple(b0, b1, b2), text, p);
  }

  /** The shape for fewer octets than a full group. */
  lemma ShortAlphabet(data: seq<Byte>)
    requires |data| < 3
    ensures PaddedAlphabet(Encode(data), PadCount(|data|))
  {
    if |data| == 1 {
      SingleAlphabet(data[0]);
      assert Encode(data) == EncodeSingle(data[0]);
    } else if |data| == 2 {
      PairAlphabet(data[0], data[1]);
      assert Encode(data) == EncodePair(data[0], data[1]);
    }
  }

  lemma SingleAlphabet(b0: Byte)
    ensures PaddedAlphabet(EncodeSingle(b0), 2)
  {
    SextetAlphabet(b0 / 4);
    SextetAlphabet((b0 % 4) * 16);
  }

  lemma PairAlphabet(b0: Byte, b1: Byte)
    ensures PaddedAlphabet(EncodePair(b0, b1), 1)
  {
    SextetAlphabet(b0 / 4);
    SextetAlphabet((b0 % 4) * 16 + b1 / 16);
    SextetAlphabet((b1 % 16) * 4);
  }
}
