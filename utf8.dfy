/** UTF-8 encoding of text, as `Buffer.from(text, 'utf-8')` performs it
    (section 3 of RFC 3629). */
module Utf8 {
  import Base64

  type Bytes = Base64.Bytes

  /** The octets of one Unicode scalar value. */
  function EncodeChar(c: char): (r: Bytes)
    ensures 1 <= |r| <= 4
    ensures |r| == 1 <==> (c as int) < 0x80
  {
    var n := c as int;
    if n < 0x80 then [n]
    else if n < 0x800 then [0xC0 + n / 64, 0x80 + n % 64]
    else if n < 0x10000 then [0xE0 + n / 4096, 0x80 + (n / 64) % 64, 0x80 + n % 64]
    else [0xF0 + n / 262144, 0x80 + (n / 4096) % 64, 0x80 + (n / 64) % 64, 0x80 + n % 64]
  }

  /** `Buffer.from(s, 'utf-8')` */
  function Encode(s: string): (r: Bytes)
    ensures |r| >= |s|
    ensures (forall i :: 0 <= i < |s| ==> (s[i] as int) < 0x80) ==> |r| == |s|
  {
    if s == [] then [] else EncodeChar(s[0]) + Encode(s[1..])
  }

  /** Encoding distributes over concatenation. */
  lemma {:induction false} EncodeAppend(a: string, b: string)
    ensures Encode(a + b) == Encode(a) + Encode(b)
    decreases |a|
  {
    if a != [] {
      var c := EncodeChar(a[0]);
      var ab := a + b;
      assert Encode(ab) == c + Encode(a[1..] + b) by {
        assert ab[0] == a[0] && ab[1..] == a[1..] + b;
      }
      EncodeAppend(a[1..], b);
      assert Encode(a) == c + Encode(a[1..]);
      ConcatAssoc(c, Encode(a[1..]), Encode(b));
    } else {
      assert a + b == b;
    }
  }

  lemma ConcatAssoc(x: Bytes, y: Bytes, z: Bytes)
    ensures x + (y + z) == (x + y) + z
  {
  }
}
