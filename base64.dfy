/** The base64 content-transfer-encoding of section 6.8 of RFC 2045, as
    `Buffer.toString('base64')` produces it: each group of three octets becomes
    four characters of the 64-character alphabet, and a final group of one or
    two octets is padded with `=`. No line breaks are inserted. */
module Base64 {
  import opened Wrappers

  type Byte = b: int | 0 <= b < 256
  type Bytes = seq<Byte>

  /** The character for a six-bit value: `A`–`Z`, `a`–`z`, `0`–`9`, `+`, `/`. */
  function Sextet(v: nat): (c: char)
    requires v < 64
    ensures IsAlphabet(c) && SextetValue(c) == v
  {
    if v < 26 then ('A' as int + v) as char
    else if v < 52 then ('a' as int + v - 26) as char
    else if v < 62 then ('0' as int + v - 52) as char
    else if v == 62 then '+'
    else '/'
  }

  predicate IsAlphabet(c: char) {
    'A' <= c <= 'Z' || 'a' <= c <= 'z' || '0' <= c <= '9' || c == '+' || c == '/'
  }

  /** The six-bit value a character of the alphabet stands for. */
  function SextetValue(c: char): (v: nat)
    requires IsAlphabet(c)
    ensures v < 64
  {
    if 'A' <= c <= 'Z' then c as int - 'A' as int
    else if 'a' <= c <= 'z' then c as int - 'a' as int + 26
    else if '0' <= c <= '9' then c as int - '0' as int + 52
    else if c == '+' then 62
    else 63
  }

  /** The four characters of a full group of three octets. */
  function Quantum(b0: Byte, b1: Byte, b2: Byte): string {
    [Sextet(b0 / 4), Sextet((b0 % 4) * 16 + b1 / 16), Sextet((b1 % 16) * 4 + b2 / 64), Sextet(b2 % 64)]
  }

  /** `Buffer.from(bytes).toString('base64')` */
  function Encode(bs: Bytes): (r: string)
    ensures |r| == 4 * ((|bs| + 2) / 3)
    ensures forall i :: 0 <= i < |r| ==> IsAlphabet(r[i]) || r[i] == '='
  {
    if |bs| == 0 then ""
    else if |bs| == 1 then [Sextet(bs[0] / 4), Sextet((bs[0] % 4) * 16)] + "=="
    else if |bs| == 2 then [Sextet(bs[0] / 4), Sextet((bs[0] % 4) * 16 + bs[1] / 16), Sextet((bs[1] % 16) * 4)] + "="
    else Quantum(bs[0], bs[1], bs[2]) + Encode(bs[3..])
  }

  /** Decoding: four characters at a time back to three octets, with one or
      two `=` allowed only in the last group. `None` for anything else. */
  function Decode(s: string): (r: Option<Bytes>)
    decreases |s|
  {
    if |s| == 0 then Some([])
    else if |s| < 4 then None
    else
      var q := s[..4];
      if !IsAlphabet(q[0]) || !IsAlphabet(q[1]) then None
      else
        var v0, v1 := SextetValue(q[0]), SextetValue(q[1]);
        var b0 := v0 * 4 + v1 / 16;
        if q[2] == '=' && q[3] == '=' then
          if |s| == 4 then Some([b0]) else None
        else if !IsAlphabet(q[2]) then None
        else
          var v2 := SextetValue(q[2]);
          var b1 := (v1 % 16) * 16 + v2 / 4;
          if q[3] == '=' then
            if |s| == 4 then Some([b0, b1]) else None
          else if !IsAlphabet(q[3]) then None
          else
            var b2 := (v2 % 4) * 64 + SextetValue(q[3]);
            match Decode(s[4..])
            case None => None
            case Some(rest) => Some([b0, b1, b2] + rest)
  }

  /** One group: the three octets come back from their four characters. */
  lemma QuantumRoundTrip(b0: Byte, b1: Byte, b2: Byte)
    ensures (b0 / 4) * 4 + ((b0 % 4) * 16 + b1 / 16) / 16 == b0
    ensures (((b0 % 4) * 16 + b1 / 16) % 16) * 16 + ((b1 % 16) * 4 + b2 / 64) / 4 == b1
    ensures (((b1 % 16) * 4 + b2 / 64) % 4) * 64 + b2 % 64 == b2
  {
  }

  /** Encoding can be undone: decoding the encoding of any octets gives them back. */
  lemma {:induction false} DecodeEncode(bs: Bytes)
    ensures Decode(Encode(bs)) == Some(bs)
    decreases |bs|
  {
    if |bs| == 1 {
      DecodeOneOctet(bs[0]);
      assert [bs[0]] == bs;
    } else if |bs| == 2 {
      DecodeTwoOctets(bs[0], bs[1]);
      assert [bs[0], bs[1]] == bs;
    } else if |bs| >= 3 {
      DecodeEncode(bs[3..]);
      DecodeEncodeQuantum(bs);
    }
  }

  /** The round trip of a first group of three octets, given the rest's. */
  lemma DecodeEncodeQuantum(bs: Bytes)
    requires |bs| >= 3 && Decode(Encode(bs[3..])) == Some(bs[3..])
    ensures Decode(Encode(bs)) == Some(bs)
  {
    var rest := bs[3..];
    var tail := Encode(rest);
    DecodeQuantum(bs[0], bs[1], bs[2], tail, rest);
    assert Encode(bs) == Quantum(bs[0], bs[1], bs[2]) + tail;
    FirstThree(bs);
  }

  lemma FirstThree(bs: Bytes)
    requires |bs| >= 3
    ensures [bs[0], bs[1], bs[2]] + bs[3..] == bs
  {
  }

  lemma DecodeOneOctet(b0: Byte)
    ensures Decode([Sextet(b0 / 4), Sextet((b0 % 4) * 16)] + "==") == Some([b0])
  {
    QuantumRoundTrip(b0, 0, 0);
  }

  lemma DecodeTwoOctets(b0: Byte, b1: Byte)
    ensures Decode([Sextet(b0 / 4), Sextet((b0 % 4) * 16 + b1 / 16), Sextet((b1 % 16) * 4)] + "=") == Some([b0, b1])
  {
    QuantumRoundTrip(b0, b1, 0);
    var e := [Sextet(b0 / 4), Sextet((b0 % 4) * 16 + b1 / 16), Sextet((b1 % 16) * 4)] + "=";
    assert e[..4] == e;
    assert e[2] != '=';
  }

  lemma DecodeQuantum(b0: Byte, b1: Byte, b2: Byte, tail: string, rest: Bytes)
    requires Decode(tail) == Some(rest)
    ensures Decode(Quantum(b0, b1, b2) + tail) == Some([b0, b1, b2] + rest)
  {
    QuantumRoundTrip(b0, b1, b2);
    var q := Quantum(b0, b1, b2);
    var e := q + tail;
    assert e[..4] == q;
    assert e[4..] == tail;
    assert q[2] != '=' && q[3] != '=';
  }

  /** Encoding is injective: different octet strings never share an encoding. */
  lemma EncodeInjective(a: Bytes, b: Bytes)
    requires Encode(a) == Encode(b)
    ensures a == b
  {
    DecodeEncode(a);
    DecodeEncode(b);
  }
}
