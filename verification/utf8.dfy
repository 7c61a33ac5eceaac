/**
 * UTF-8, the byte encoding of Rust's `str`. `uri_fragment` walks a
 * token's bytes (`str::bytes`), so the model needs the encoding of a
 * character as one to four bytes.
 */
module Utf8 {

  type byte = b: int | 0 <= b < 256

  /**
   * The UTF-8 encoding of one Unicode scalar value. An ASCII character is
   * its own single byte; every byte of a longer encoding has its top bit
   * set, so no multi-byte encoding contains an ASCII byte.
   */
  function EncodeChar(c: char): (r: seq<byte>)
    ensures 1 <= |r| <= 4
    ensures |r| == 1 <==> c as int < 0x80
    ensures |r| == 1 ==> r[0] == c as int
    ensures |r| > 1 ==> forall i :: 0 <= i < |r| ==> r[i] >= 0x80
  {
    var cp := c as int;
    if cp < 0x80 then
      [cp]
    else if cp < 0x800 then
      [0xC0 + cp / 0x40, 0x80 + cp % 0x40]
    else if cp < 0x1_0000 then
      [0xE0 + cp / 0x1000, 0x80 + (cp / 0x40) % 0x40, 0x80 + cp % 0x40]
    else
      [0xF0 + cp / 0x4_0000, 0x80 + (cp / 0x1000) % 0x40, 0x80 + (cp / 0x40) % 0x40, 0x80 + cp % 0x40]
  }

  /** The UTF-8 bytes of a string, character after character. */
  function Encode(s: string): seq<byte>
  {
    if s == [] then [] else EncodeChar(s[0]) + Encode(s[1..])
  }

  /** An ASCII byte occurs in the encoding exactly where its character occurs in the string. */
  lemma {:induction false} EncodeHasAscii(s: string, c: char)
    requires c as int < 0x80
    ensures (c as int in Encode(s)) <==> c in s
  {
    if s != [] {
      EncodeHasAscii(s[1..], c);
      assert s == [s[0]] + s[1..];
      if s[0] == c {
        assert Encode(s)[0] == c as int;
      }
    }
  }

  lemma {:induction false} EncodeAppend(a: string, b: string)
    ensures Encode(a + b) == Encode(a) + Encode(b)
  {
    if a != [] {
      assert (a + b)[1..] == a[1..] + b;
      EncodeAppend(a[1..], b);
    } else {
      assert a + b == b;
    }
  }
}
