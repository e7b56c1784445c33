/**
 * Standard base64 with padding (section 4 of RFC 4648), the encoding
 * `base64.StdEncoding.EncodeToString` produces for a session token.
 * `Decode` is not used by the router; it is the inverse that shows the
 * encoding loses nothing.
 */
module Base64 {

  type byte = x: int | 0 <= x < 256

  /** A character of the 64-letter alphabet of section 4 of RFC 4648. */
  predicate IsAlphabetChar(c: char) {
    ('A' <= c <= 'Z') || ('a' <= c <= 'z') || ('0' <= c <= '9') || c == '+' || c == '/'
  }

  /** The alphabet letter for a 6-bit value. */
  function Char(v: int): (c: char)
    requires 0 <= v < 64
    ensures IsAlphabetChar(c)
    ensures Value(c) == v
  {
    if v < 26 then ('A' as int + v) as char
    else if v < 52 then ('a' as int + (v - 26)) as char
    else if v < 62 then ('0' as int + (v - 52)) as char
    else if v == 62 then '+'
    else '/'
  }

  /** The 6-bit value of an alphabet letter (0 for any other character). */
  function Value(c: char): (v: int)
    ensures 0 <= v < 64
  {
    if 'A' <= c <= 'Z' then c as int - 'A' as int
    else if 'a' <= c <= 'z' then c as int - 'a' as int + 26
    else if '0' <= c <= '9' then c as int - '0' as int + 52
    else if c == '+' then 62
    else if c == '/' then 63
    else 0
  }

  /** Three bytes become four letters; a final one or two bytes become four characters ending in padding. */
  function Encode(b: seq<byte>): (s: string)
    ensures |s| % 4 == 0
    ensures s == [] <==> b == []
  {
    if |b| == 0 then ""
    else if |b| == 1 then Quantum1(b[0])
    else if |b| == 2 then Quantum2(b[0], b[1])
    else Quantum3(b[0], b[1], b[2]) + Encode(b[3..])
  }

  function Quantum1(b0: byte): string {
    [Char(b0 / 4), Char((b0 % 4) * 16), '=', '=']
  }

  function Quantum2(b0: byte, b1: byte): string {
    [Char(b0 / 4), Char((b0 % 4) * 16 + b1 / 16), Char((b1 % 16) * 4), '=']
  }

  function Quantum3(b0: byte, b1: byte, b2: byte): string {
    [Char(b0 / 4), Char((b0 % 4) * 16 + b1 / 16), Char((b1 % 16) * 4 + b2 / 64), Char(b2 % 64)]
  }

  /** The bytes of one four-character quantum, honouring padding. */
  function DecodeQuantum(q: string): seq<byte>
    requires |q| == 4
  {
    var v0, v1 := Value(q[0]), Value(q[1]);
    var x := v0 * 4 + v1 / 16;
    if q[2] == '=' then [x]
    else
      var v2 := Value(q[2]);
      var y := (v1 % 16) * 16 + v2 / 4;
      if q[3] == '=' then [x, y]
      else [x, y, (v2 % 4) * 64 + Value(q[3])]
  }

  function Decode(s: string): seq<byte>
  {
    if |s| < 4 then [] else DecodeQuantum(s[..4]) + Decode(s[4..])
  }

  /** The high six bits of `b0` and then its low two bits above the high four of `b1` give `b0` back. */
  lemma FirstByte(b0: byte, b1: byte)
    ensures (b0 / 4) * 4 + ((b0 % 4) * 16 + b1 / 16) / 16 == b0
  {
    assert ((b0 % 4) * 16 + b1 / 16) / 16 == b0 % 4;
  }

  lemma SecondByte(b0: byte, b1: byte, b2: byte)
    ensures (((b0 % 4) * 16 + b1 / 16) % 16) * 16 + ((b1 % 16) * 4 + b2 / 64) / 4 == b1
  {
    assert ((b0 % 4) * 16 + b1 / 16) % 16 == b1 / 16;
    assert ((b1 % 16) * 4 + b2 / 64) / 4 == b1 % 16;
  }

  lemma ThirdByte(b1: byte, b2: byte)
    ensures (((b1 % 16) * 4 + b2 / 64) % 4) * 64 + b2 % 64 == b2
  {
    assert ((b1 % 16) * 4 + b2 / 64) % 4 == b2 / 64;
  }

  lemma Quantum1Decodes(b0: byte)
    ensures DecodeQuantum(Quantum1(b0)) == [b0]
  {
    FirstByte(b0, 0);
  }

  lemma Quantum2Decodes(b0: byte, b1: byte)
    ensures DecodeQuantum(Quantum2(b0, b1)) == [b0, b1]
  {
    FirstByte(b0, b1);
    SecondByte(b0, b1, 0);
  }

  lemma Quantum3Decodes(b0: byte, b1: byte, b2: byte)
    ensures DecodeQuantum(Quantum3(b0, b1, b2)) == [b0, b1, b2]
  {
    var q := Quantum3(b0, b1, b2);
    assert q[2] != '=' && q[3] != '=';
    FirstByte(b0, b1);
    SecondByte(b0, b1, b2);
    ThirdByte(b1, b2);
  }

  lemma EncodeFront(b: seq<byte>)
    requires |b| >= 3
    ensures Encode(b) == Quantum3(b[0], b[1], b[2]) + Encode(b[3..])
  {
  }

  /** Decoding a leading quantum and then the rest. */
  lemma DecodeFront(q: string, rest: string)
    requires |q| == 4
    ensures Decode(q + rest) == DecodeQuantum(q) + Decode(rest)
  {
    assert (q + rest)[..4] == q && (q + rest)[4..] == rest;
  }

  lemma DecodeShort(b: seq<byte>)
    requires 1 <= |b| <= 2
    ensures Decode(Encode(b)) == b
  {
    var q := Encode(b);
    DecodeFront(q, "");
    assert q + "" == q;
    if |b| == 1 {
      Quantum1Decodes(b[0]);
    } else {
      Quantum2Decodes(b[0], b[1]);
    }
  }

  /** Decoding undoes encoding, so distinct byte strings get distinct encodings. */
  lemma {:induction false} DecodeEncode(b: seq<byte>)
    ensures Decode(Encode(b)) == b
  {
    if 1 <= |b| <= 2 {
      DecodeShort(b);
    } else if |b| >= 3 {
      var q := Quantum3(b[0], b[1], b[2]);
      var rest := Encode(b[3..]);
      EncodeFront(b);
      DecodeFront(q, rest);
      Quantum3Decodes(b[0], b[1], b[2]);
      DecodeEncode(b[3..]);
      assert b == [b[0], b[1], b[2]] + b[3..];
    }
  }

  /** The padded encoding of `n` bytes is 4·⌈n/3⌉ characters long. */
  lemma {:induction false} EncodeLength(b: seq<byte>)
    ensures |Encode(b)| == 4 * ((|b| + 2) / 3)
  {
    if |b| >= 3 {
      EncodeFront(b);
      EncodeLength(b[3..]);
      assert (|b| + 2) / 3 == (|b[3..]| + 2) / 3 + 1;
    }
  }

  lemma EncodeInjective(b1: seq<byte>, b2: seq<byte>)
    ensures Encode(b1) == Encode(b2) ==> b1 == b2
  {
    DecodeEncode(b1);
    DecodeEncode(b2);
  }

  /** Number of '=' characters that end the encoding of `n` bytes. */
  function PadLength(n: nat): nat {
    if n % 3 == 0 then 0 else 3 - n % 3
  }

  /** The encoding is alphabet letters followed by exactly `PadLength(|b|)` padding characters. */
  lemma {:induction false} EncodeShape(b: seq<byte>)
    ensures PadLength(|b|) <= |Encode(b)|
    ensures forall i :: 0 <= i < |Encode(b)| - PadLength(|b|) ==> IsAlphabetChar(Encode(b)[i])
    ensures forall i :: |Encode(b)| - PadLength(|b|) <= i < |Encode(b)| ==> Encode(b)[i] == '='
  {
    var s := Encode(b);
    if |b| == 1 {
      assert s == Quantum1(b[0]) && PadLength(1) == 2;
    } else if |b| == 2 {
      assert s == Quantum2(b[0], b[1]) && PadLength(2) == 1;
    } else if |b| >= 3 {
      var q, rest := Quantum3(b[0], b[1], b[2]), Encode(b[3..]);
      EncodeFront(b);
      EncodeShape(b[3..]);
      assert |s| == 4 + |rest|;
      assert |b[3..]| == |b| - 3 && PadLength(|b|) == PadLength(|b| - 3);
      forall i | 0 <= i < |s|
        ensures s[i] == if i < 4 then q[i] else rest[i - 4]
      {
      }
    }
  }

  /**
   * The encoding of 32 bytes, such as a session token, is 43 alphabet letters
   * followed by one '=': it matches `^[A-Za-z0-9+/]{43}=$`.
   */
  lemma TokenShape(b: seq<byte>)
    requires |b| == 32
    ensures |Encode(b)| == 44
    ensures forall i :: 0 <= i < 43 ==> IsAlphabetChar(Encode(b)[i])
    ensures Encode(b)[43] == '='
  {
    EncodeLength(b);
    EncodeShape(b);
  }

  /** Known answers of the standard encoding for "foo", "fo" and "f" (section 10 of RFC 4648). */
  lemma KnownAnswersFoo()
    ensures Encode([102, 111, 111]) == "Zm9v"
    ensures Encode([102, 111]) == "Zm8="
    ensures Encode([102]) == "Zg=="
  {
  }

  /** Known answers that reach the last two letters of the alphabet, '+' and '/'. */
  lemma KnownAnswersAlphabetEnd()
    ensures Encode([255]) == "/w=="
    ensures Encode([251, 255]) == "+/8="
  {
  }
}
