/**
  The "base64" encoding of section 4 of RFC 4648, as used by the chat client
  to turn an attachment's raw bytes into the payload of an attachment frame.

  Encoding works on blocks of three bytes, each yielding four characters of
  the 64-character alphabet (Table 1 of the RFC); a final block of one or two
  bytes is completed with "=" padding so that the output length is always a
  multiple of four. The decoder is the strict one of section 3.5 of the RFC:
  it rejects characters outside the alphabet, padding anywhere but at the end,
  and non-zero pad bits, which makes it the exact inverse of the encoder.
*/
module Base64 {
  import opened Wrappers

  type Byte = x: int | 0 <= x < 0x100

  /** The 6-bit value carried by one character of the encoding. */
  type Sextet = x: int | 0 <= x < 64

  const Pad: char := '='

  /** Characters of the alphabet of Table 1 of RFC 4648. */
  predicate IsAlphabetChar(c: char)
  {
    ('A' <= c <= 'Z') || ('a' <= c <= 'z') || ('0' <= c <= '9') || c == '+' || c == '/'
  }

  /** Table 1 of RFC 4648: value 0..25 is A..Z, 26..51 is a..z, 52..61 is 0..9, then + and /. */
  function CharOf(v: Sextet): (c: char)
    ensures IsAlphabetChar(c)
  {
    if v < 26 then ('A' as int + v) as char
    else if v < 52 then ('a' as int + (v - 26)) as char
    else if v < 62 then ('0' as int + (v - 52)) as char
    else if v == 62 then '+'
    else '/'
  }

  /** The inverse of Table 1. */
  function ValueOf(c: char): (v: Sextet)
    requires IsAlphabetChar(c)
    ensures CharOf(v) == c
  {
    if 'A' <= c <= 'Z' then c as int - 'A' as int
    else if 'a' <= c <= 'z' then c as int - 'a' as int + 26
    else if '0' <= c <= '9' then c as int - '0' as int + 52
    else if c == '+' then 62
    else 63
  }

  lemma ValueOfCharOf(v: Sextet)
    ensures ValueOf(CharOf(v)) == v
  {
  }

  /** Four characters for a full block of 24 bits. */
  function EncodeBlock(b0: Byte, b1: Byte, b2: Byte): string
  {
    [CharOf(b0 / 4), CharOf((b0 % 4) * 16 + b1 / 16), CharOf((b1 % 16) * 4 + b2 / 64), CharOf(b2 % 64)]
  }

  /** A final quantum of 8 bits: two characters and two pad characters. */
  function EncodeOne(b0: Byte): string
  {
    [CharOf(b0 / 4), CharOf((b0 % 4) * 16), Pad, Pad]
  }

  /** A final quantum of 16 bits: three characters and one pad character. */
  function EncodeTwo(b0: Byte, b1: Byte): string
  {
    [CharOf(b0 / 4), CharOf((b0 % 4) * 16 + b1 / 16), CharOf((b1 % 16) * 4), Pad]
  }

  /** Number of pad characters at the end of the encoding of n bytes. */
  function PadCount(n: nat): nat
  {
    (3 - n % 3) % 3
  }

  /** Length of the encoding of n bytes: 4 * ceil(n / 3). */
  function EncodedLength(n: nat): nat
  {
    4 * ((n + 2) / 3)
  }

  /** The encoding of `raw`; its length is 4 * ceil(|raw| / 3). */
  function Encode(raw: seq<Byte>): (s: string)
    ensures |s| == EncodedLength(|raw|)
    decreases |raw|
  {
    if |raw| == 0 then ""
    else if |raw| == 1 then EncodeOne(raw[0])
    else if |raw| == 2 then EncodeTwo(raw[0], raw[1])
    else EncodeBlock(raw[0], raw[1], raw[2]) + Encode(raw[3..])
  }

  /** Exactly the last k characters of s are "=", every other one is in the alphabet. */
  predicate PaddedBy(s: string, k: nat)
  {
    forall i :: 0 <= i < |s| ==> (s[i] == Pad <==> i >= |s| - k) && (s[i] != Pad ==> IsAlphabetChar(s[i]))
  }

  lemma PaddedConcat(e: string, t: string, k: nat)
    requires PaddedBy(e, 0) && PaddedBy(t, k) && k <= |t|
    ensures PaddedBy(e + t, k)
  {
    var s := e + t;
    forall i | 0 <= i < |s|
      ensures (s[i] == Pad <==> i >= |s| - k) && (s[i] != Pad ==> IsAlphabetChar(s[i]))
    {
      if i >= |e| {
        assert s[i] == t[i - |e|];
      } else {
        assert s[i] == e[i];
      }
    }
  }

  lemma BlockShape(b0: Byte, b1: Byte, b2: Byte)
    ensures PaddedBy(EncodeBlock(b0, b1, b2), 0)
  {
  }

  lemma TwoShape(b0: Byte, b1: Byte)
    ensures PaddedBy(EncodeTwo(b0, b1), 1)
  {
  }

  lemma OneShape(b0: Byte)
    ensures PaddedBy(EncodeOne(b0), 2)
  {
  }

  lemma PadArithmetic(n: nat)
    ensures PadCount(n + 3) == PadCount(n) <= EncodedLength(n)
  {
  }

  /** The shape of an encoding: it ends in PadCount(|raw|) pad characters and nothing else is padding. */
  lemma {:induction false} EncodeShape(raw: seq<Byte>)
    ensures PaddedBy(Encode(raw), PadCount(|raw|))
    decreases |raw|
  {
    if |raw| == 1 {
      OneShape(raw[0]);
    } else if |raw| == 2 {
      TwoShape(raw[0], raw[1]);
    } else if |raw| >= 3 {
      EncodeShape(raw[3..]);
      EncodeShapeStep(raw);
    }
  }

  /** A full block in front of a well-shaped tail keeps the shape. */
  lemma EncodeShapeStep(raw: seq<Byte>)
    requires |raw| >= 3 && PaddedBy(Encode(raw[3..]), PadCount(|raw| - 3))
    ensures PaddedBy(Encode(raw), PadCount(|raw|))
  {
    var e, t := EncodeBlock(raw[0], raw[1], raw[2]), Encode(raw[3..]);
    BlockShape(raw[0], raw[1], raw[2]);
    PadArithmetic(|raw| - 3);
    PaddedConcat(e, t, PadCount(|raw|));
    assert Encode(raw) == e + t;
  }

  /** Decodes four alphabet characters into three bytes. */
  function DecodeBlock(a: char, b: char, c: char, d: char): (r: Option<seq<Byte>>)
    ensures r.Some? ==> |r.value| == 3
  {
    if IsAlphabetChar(a) && IsAlphabetChar(b) && IsAlphabetChar(c) && IsAlphabetChar(d) then
      var va, vb, vc, vd := ValueOf(a), ValueOf(b), ValueOf(c), ValueOf(d);
      Some([va * 4 + vb / 16, (vb % 16) * 16 + vc / 4, (vc % 4) * 64 + vd])
    else None
  }

  /** Decodes a final quantum "ab==": one byte; the four low bits of b must be zero. */
  function DecodeOne(a: char, b: char): (r: Option<seq<Byte>>)
    ensures r.Some? ==> |r.value| == 1
  {
    if IsAlphabetChar(a) && IsAlphabetChar(b) && ValueOf(b) % 16 == 0 then
      Some([ValueOf(a) * 4 + ValueOf(b) / 16])
    else None
  }

  /** Decodes a final quantum "abc=": two bytes; the two low bits of c must be zero. */
  function DecodeTwo(a: char, b: char, c: char): (r: Option<seq<Byte>>)
    ensures r.Some? ==> |r.value| == 2
  {
    if IsAlphabetChar(a) && IsAlphabetChar(b) && IsAlphabetChar(c) && ValueOf(c) % 4 == 0 then
      var vb := ValueOf(b);
      Some([ValueOf(a) * 4 + vb / 16, (vb % 16) * 16 + ValueOf(c) / 4])
    else None
  }

  /**
    Decodes the final quantum, which may carry one or two pad characters; the
    bits that the padding leaves unused must be zero (section 3.5 of RFC 4648).
  */
  function DecodeFinal(a: char, b: char, c: char, d: char): (r: Option<seq<Byte>>)
    ensures r.Some? ==> 1 <= |r.value| <= 3
  {
    if c == Pad && d == Pad then DecodeOne(a, b)
    else if d == Pad then DecodeTwo(a, b, c)
    else DecodeBlock(a, b, c, d)
  }

  /** Strict decoding: None for any string that is not the encoding of some bytes. */
  function Decode(s: string): (r: Option<seq<Byte>>)
    ensures r.Some? ==> |s| == EncodedLength(|r.value|)
    decreases |s|
  {
    if |s| == 0 then Some([])
    else if |s| < 4 then None
    else if |s| == 4 then DecodeFinal(s[0], s[1], s[2], s[3])
    else
      match DecodeBlock(s[0], s[1], s[2], s[3])
      case None => None
      case Some(head) =>
        match Decode(s[4..])
        case None => None
        case Some(tail) => Some(head + tail)
  }

  /** The bit arithmetic of one block: regrouping 8-bit into 6-bit groups and back is the identity. */
  lemma RegroupBytes(b0: Byte, b1: Byte, b2: Byte)
    ensures var v1, v2 := (b0 % 4) * 16 + b1 / 16, (b1 % 16) * 4 + b2 / 64;
      0 <= v1 < 64 && 0 <= v2 < 64 &&
      (b0 / 4) * 4 + v1 / 16 == b0 && (v1 % 16) * 16 + v2 / 4 == b1 && (v2 % 4) * 64 + b2 % 64 == b2
  {
  }

  lemma BlockRoundTrip(b0: Byte, b1: Byte, b2: Byte)
    ensures var e := EncodeBlock(b0, b1, b2); DecodeBlock(e[0], e[1], e[2], e[3]) == Some([b0, b1, b2])
  {
    RegroupBytes(b0, b1, b2);
    var v0: Sextet, v1: Sextet, v2: Sextet, v3: Sextet := b0 / 4, (b0 % 4) * 16 + b1 / 16, (b1 % 16) * 4 + b2 / 64, b2 % 64;
    DecodeChars(v0, v1, v2, v3, EncodeBlock(b0, b1, b2), [b0, b1, b2]);
  }

  /** Decoding the characters of four sextets regroups the sextets into three bytes. */
  lemma DecodeChars(v0: Sextet, v1: Sextet, v2: Sextet, v3: Sextet, e: string, r: seq<Byte>)
    requires e == [CharOf(v0), CharOf(v1), CharOf(v2), CharOf(v3)]
    requires r == [v0 * 4 + v1 / 16, (v1 % 16) * 16 + v2 / 4, (v2 % 4) * 64 + v3]
    ensures DecodeBlock(e[0], e[1], e[2], e[3]) == Some(r)
  {
    ValueOfCharOf(v0);
    ValueOfCharOf(v1);
    ValueOfCharOf(v2);
    ValueOfCharOf(v3);
  }

  /** The final quantum of two bytes decodes back to them. */
  lemma TwoQuantumRoundTrip(b0: Byte, b1: Byte)
    ensures var e := EncodeTwo(b0, b1); DecodeFinal(e[0], e[1], e[2], e[3]) == Some([b0, b1])
  {
    RegroupBytes(b0, b1, 0);
    var v0: Sextet, v1: Sextet, v2: Sextet := b0 / 4, (b0 % 4) * 16 + b1 / 16, (b1 % 16) * 4;
    ValueOfCharOf(v0);
    ValueOfCharOf(v1);
    ValueOfCharOf(v2);
    assert CharOf(v2) != Pad;
  }

  lemma TwoRoundTrip(b0: Byte, b1: Byte)
    ensures Decode(Encode([b0, b1])) == Some([b0, b1])
  {
    var e := EncodeTwo(b0, b1);
    TwoQuantumRoundTrip(b0, b1);
    assert Encode([b0, b1]) == e;
    assert Decode(e) == DecodeFinal(e[0], e[1], e[2], e[3]);
  }

  /** The final quantum of one byte decodes back to it. */
  lemma OneQuantumRoundTrip(b0: Byte)
    ensures var e := EncodeOne(b0); DecodeFinal(e[0], e[1], e[2], e[3]) == Some([b0])
  {
    RegroupBytes(b0, 0, 0);
    var v0: Sextet, v1: Sextet := b0 / 4, (b0 % 4) * 16;
    ValueOfCharOf(v0);
    ValueOfCharOf(v1);
  }

  lemma OneRoundTrip(b0: Byte)
    ensures Decode(Encode([b0])) == Some([b0])
  {
    var e := EncodeOne(b0);
    OneQuantumRoundTrip(b0);
    assert Encode([b0]) == e;
    assert Decode(e) == DecodeFinal(e[0], e[1], e[2], e[3]);
  }

  lemma ThreeRoundTrip(b0: Byte, b1: Byte, b2: Byte)
    ensures Decode(Encode([b0, b1, b2])) == Some([b0, b1, b2])
  {
    var e := EncodeBlock(b0, b1, b2);
    BlockRoundTrip(b0, b1, b2);
    assert IsAlphabetChar(e[3]);
    assert Decode(e) == DecodeFinal(e[0], e[1], e[2], e[3]) == DecodeBlock(e[0], e[1], e[2], e[3]);
    assert [b0, b1, b2][3..] == [];
    assert Encode([b0, b1, b2]) == e + Encode([]) == e;
  }

  /** Decoding a full block followed by a non-empty rest. */
  lemma DecodeCons(e: string, t: string, head: seq<Byte>, tail: seq<Byte>)
    requires |e| == 4 && |t| > 0
    requires DecodeBlock(e[0], e[1], e[2], e[3]) == Some(head) && Decode(t) == Some(tail)
    ensures Decode(e + t) == Some(head + tail)
  {
    var s := e + t;
    assert s[4..] == t;
    assert s[0] == e[0] && s[1] == e[1] && s[2] == e[2] && s[3] == e[3];
  }

  /** A sequence of one to three elements is the display of its elements. */
  lemma ShortSequence<T>(s: seq<T>)
    requires 0 < |s| <= 3
    ensures |s| == 1 ==> s == [s[0]]
    ensures |s| == 2 ==> s == [s[0], s[1]]
    ensures |s| == 3 ==> s == [s[0], s[1], s[2]]
  {
  }

  /** A sequence of at least three elements is its first three followed by the rest. */
  lemma SplitThree<T>(s: seq<T>)
    requires |s| >= 3
    ensures s == [s[0], s[1], s[2]] + s[3..]
  {
  }

  /** The round trip for inputs of one to three bytes: a single final quantum. */
  lemma DecodeEncodeQuantum(raw: seq<Byte>)
    requires 0 < |raw| <= 3
    ensures Decode(Encode(raw)) == Some(raw)
  {
    ShortSequence(raw);
    if |raw| == 1 {
      OneRoundTrip(raw[0]);
    } else if |raw| == 2 {
      TwoRoundTrip(raw[0], raw[1]);
    } else {
      ThreeRoundTrip(raw[0], raw[1], raw[2]);
    }
  }

  /** One inductive step: a full block in front of a tail that already round-trips. */
  lemma DecodeEncodeStep(raw: seq<Byte>)
    requires |raw| > 3 && Decode(Encode(raw[3..])) == Some(raw[3..])
    ensures Decode(Encode(raw)) == Some(raw)
  {
    var e, t := EncodeBlock(raw[0], raw[1], raw[2]), Encode(raw[3..]);
    assert Encode(raw) == e + t;
    BlockRoundTrip(raw[0], raw[1], raw[2]);
    DecodeCons(e, t, [raw[0], raw[1], raw[2]], raw[3..]);
    SplitThree(raw);
  }

  /** Decoding the encoding gives back the bytes (round trip of the attachment payload). */
  lemma {:induction false} DecodeEncode(raw: seq<Byte>)
    ensures Decode(Encode(raw)) == Some(raw)
    decreases |raw|
  {
    if |raw| == 0 {
      assert Encode(raw) == "";
    } else if |raw| <= 3 {
      DecodeEncodeQuantum(raw);
    } else {
      DecodeEncode(raw[3..]);
      DecodeEncodeStep(raw);
    }
  }

  /** The bit arithmetic of one block, read backwards: 6-bit groups to bytes and back. */
  lemma RegroupSextets(va: Sextet, vb: Sextet, vc: Sextet, vd: Sextet)
    ensures var r0, r1, r2 := va * 4 + vb / 16, (vb % 16) * 16 + vc / 4, (vc % 4) * 64 + vd;
      0 <= r0 < 0x100 && 0 <= r1 < 0x100 && 0 <= r2 < 0x100 &&
      r0 / 4 == va && (r0 % 4) * 16 + r1 / 16 == vb && (r1 % 16) * 4 + r2 / 64 == vc && r2 % 64 == vd
  {
  }

  /** Encoding the bytes that four sextets regroup into gives back the four characters. */
  lemma EncodeRegrouped(va: Sextet, vb: Sextet, vc: Sextet, vd: Sextet, r: seq<Byte>)
    requires r == [va * 4 + vb / 16, (vb % 16) * 16 + vc / 4, (vc % 4) * 64 + vd]
    ensures EncodeBlock(r[0], r[1], r[2]) == [CharOf(va), CharOf(vb), CharOf(vc), CharOf(vd)]
  {
    RegroupSextets(va, vb, vc, vd);
    var r0: Byte, r1: Byte, r2: Byte := r[0], r[1], r[2];
    assert r0 / 4 == va && (r0 % 4) * 16 + r1 / 16 == vb && (r1 % 16) * 4 + r2 / 64 == vc && r2 % 64 == vd;
  }

  lemma BlockInverse(a: char, b: char, c: char, d: char)
    requires DecodeBlock(a, b, c, d).Some?
    ensures var r := DecodeBlock(a, b, c, d).value; EncodeBlock(r[0], r[1], r[2]) == [a, b, c, d]
  {
    var va: int, vb: int, vc: int, vd: int := ValueOf(a), ValueOf(b), ValueOf(c), ValueOf(d);
    var r := DecodeBlock(a, b, c, d).value;
    EncodeRegrouped(va, vb, vc, vd, r);
  }

  lemma OneInverse(a: char, b: char)
    requires DecodeOne(a, b).Some?
    ensures Encode(DecodeOne(a, b).value) == [a, b, Pad, Pad]
  {
    var va: int, vb: int := ValueOf(a), ValueOf(b);
    RegroupSextets(va, vb, 0, 0);
    var r0: Byte := va * 4 + vb / 16;
    assert DecodeOne(a, b).value == [r0];
    var w0: Sextet, w1: Sextet := r0 / 4, (r0 % 4) * 16;
    assert w0 == va && w1 == vb;
    assert Encode([r0]) == EncodeOne(r0) == [CharOf(w0), CharOf(w1), Pad, Pad];
  }

  lemma TwoInverse(a: char, b: char, c: char)
    requires DecodeTwo(a, b, c).Some?
    ensures Encode(DecodeTwo(a, b, c).value) == [a, b, c, Pad]
  {
    var va: int, vb: int, vc: int := ValueOf(a), ValueOf(b), ValueOf(c);
    RegroupSextets(va, vb, vc, 0);
    var r0: Byte, r1: Byte := va * 4 + vb / 16, (vb % 16) * 16 + vc / 4;
    assert DecodeTwo(a, b, c).value == [r0, r1];
    var w0: Sextet, w1: Sextet, w2: Sextet := r0 / 4, (r0 % 4) * 16 + r1 / 16, (r1 % 16) * 4;
    assert w0 == va && w1 == vb && w2 == vc;
    assert Encode([r0, r1]) == EncodeTwo(r0, r1) == [CharOf(w0), CharOf(w1), CharOf(w2), Pad];
  }

  lemma FinalInverse(a: char, b: char, c: char, d: char)
    requires DecodeFinal(a, b, c, d).Some?
    ensures Encode(DecodeFinal(a, b, c, d).value) == [a, b, c, d]
  {
    if c == Pad && d == Pad {
      OneInverse(a, b);
    } else if d == Pad {
      TwoInverse(a, b, c);
    } else {
      var r := DecodeBlock(a, b, c, d).value;
      BlockInverse(a, b, c, d);
      assert Encode(r) == EncodeBlock(r[0], r[1], r[2]) + Encode([]);
    }
  }

  /** Encoding a full block followed by a non-empty rest. */
  lemma EncodeCons(head: seq<Byte>, tail: seq<Byte>)
    requires |head| == 3 && |tail| > 0
    ensures Encode(head + tail) == EncodeBlock(head[0], head[1], head[2]) + Encode(tail)
  {
    var raw := head + tail;
    assert raw[0] == head[0] && raw[1] == head[1] && raw[2] == head[2];
    assert raw[3..] == tail;
  }

  lemma SplitQuantum(s: string)
    requires |s| >= 4
    ensures s == [s[0], s[1], s[2], s[3]] + s[4..]
  {
  }

  /** A string that decodes is the encoding of what it decodes to: the encoding is canonical. */
  lemma {:induction false} EncodeDecode(s: string, raw: seq<Byte>)
    requires Decode(s) == Some(raw)
    ensures Encode(raw) == s
    decreases |s|
  {
    if |s| == 0 {
      assert raw == [];
    } else if |s| == 4 {
      assert Decode(s) == DecodeFinal(s[0], s[1], s[2], s[3]);
      FinalInverse(s[0], s[1], s[2], s[3]);
      SplitQuantum(s);
    } else {
      assert |s| > 4;
      var head := DecodeBlock(s[0], s[1], s[2], s[3]).value;
      var tail := Decode(s[4..]).value;
      assert raw == head + tail;
      EncodeDecode(s[4..], tail);
      assert |tail| > 0;
      BlockInverse(s[0], s[1], s[2], s[3]);
      EncodeCons(head, tail);
      SplitQuantum(s);
    }
  }

  /** The encoding is injective: distinct files give distinct payloads. */
  lemma EncodeInjective(x: seq<Byte>, y: seq<Byte>)
    requires Encode(x) == Encode(y)
    ensures x == y
  {
    DecodeEncode(x);
    DecodeEncode(y);
  }

  /** Example: bytes 1, 2, 3 encode as "AQID". */
  lemma EncodeExample()
    ensures Encode([1, 2, 3]) == "AQID"
  {
    assert CharOf(0) == 'A' && CharOf(16) == 'Q' && CharOf(8) == 'I' && CharOf(3) == 'D';
    assert EncodeBlock(1, 2, 3) == "AQID";
    assert Encode([1, 2, 3]) == EncodeBlock(1, 2, 3) + Encode([]);
  }
}
