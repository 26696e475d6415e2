/**
 * Lower-case hexadecimal encoding of bytes, the way Go's `hex.EncodeToString`
 * renders an MD5 digest: two characters per byte, high nibble first, digits
 * taken from "0123456789abcdef".
 */
module Hex {

  type Byte = x: int | 0 <= x < 256

  /** The sixteen characters the encoding uses: '0'..'9' and 'a'..'f'. */
  predicate IsDigit(c: char) {
    '0' <= c <= '9' || 'a' <= c <= 'f'
  }

  /** The character for one nibble. */
  function Char(v: int): (c: char)
    requires 0 <= v < 16
    ensures IsDigit(c)
  {
    if v < 10 then ('0' as int + v) as char else ('a' as int + v - 10) as char
  }

  /** The nibble a character stands for; the inverse of Char. */
  function Value(c: char): (v: int)
    requires IsDigit(c)
    ensures 0 <= v < 16 && Char(v) == c
  {
    if c <= '9' then c as int - '0' as int else c as int - 'a' as int + 10
  }

  function Encode(b: seq<Byte>): (s: string)
    ensures |s| == 2 * |b|
    ensures forall i :: 0 <= i < |s| ==> IsDigit(s[i])
  {
    if b == [] then "" else [Char(b[0] / 16), Char(b[0] % 16)] + Encode(b[1..])
  }

  function Decode(s: string): (b: seq<Byte>)
    requires |s| % 2 == 0
    requires forall i :: 0 <= i < |s| ==> IsDigit(s[i])
    ensures |b| == |s| / 2
  {
    if s == "" then [] else [Value(s[0]) * 16 + Value(s[1])] + Decode(s[2..])
  }

  /** Decoding recovers the bytes that were encoded. */
  lemma {:induction false} DecodeEncode(b: seq<Byte>)
    ensures Decode(Encode(b)) == b
  {
    if b != [] {
      var s := Encode(b);
      assert s[2..] == Encode(b[1..]);
      DecodeEncode(b[1..]);
    }
  }

  /** A byte built from two nibbles splits back into them. */
  lemma Nibbles(hi: int, lo: int)
    requires 0 <= hi < 16 && 0 <= lo < 16
    ensures (hi * 16 + lo) / 16 == hi && (hi * 16 + lo) % 16 == lo
  {
  }

  /** Encoding recovers every well-formed lower-case hex string. */
  lemma {:induction false} EncodeDecode(s: string)
    requires |s| % 2 == 0
    requires forall i :: 0 <= i < |s| ==> IsDigit(s[i])
    ensures Encode(Decode(s)) == s
  {
    if s != "" {
      var hi, lo := Value(s[0]), Value(s[1]);
      var b := Decode(s);
      assert b == [hi * 16 + lo] + Decode(s[2..]);
      assert b[1..] == Decode(s[2..]);
      Nibbles(hi, lo);
      EncodeDecode(s[2..]);
      assert s == [s[0], s[1]] + s[2..];
    }
  }

  /** The encoding works byte by byte, so it distributes over concatenation. */
  lemma {:induction false} EncodeAppend(a: seq<Byte>, b: seq<Byte>)
    ensures Encode(a + b) == Encode(a) + Encode(b)
  {
    if a != [] {
      assert (a + b)[0] == a[0] && (a + b)[1..] == a[1..] + b;
      EncodeAppend(a[1..], b);
    } else {
      assert a + b == b;
    }
  }
}
