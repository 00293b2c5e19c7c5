/** Bytes, and the UTF-8 encoding through which a string reaches the hash function. */
module Bytes {

  newtype Byte = x: int | 0 <= x < 256

  /** The UTF-8 encoding of one Unicode scalar value. */
  function Utf8Char(c: char): (b: seq<Byte>)
    ensures 1 <= |b| <= 4
  {
    var n := c as int;
    if n < 0x80 then
      [n as Byte]
    else if n < 0x800 then
      [(0xC0 + n / 0x40) as Byte, (0x80 + n % 0x40) as Byte]
    else if n < 0x1_0000 then
      [(0xE0 + n / 0x1000) as Byte, (0x80 + n / 0x40 % 0x40) as Byte, (0x80 + n % 0x40) as Byte]
    else
      [(0xF0 + n / 0x4_0000) as Byte, (0x80 + n / 0x1000 % 0x40) as Byte,
       (0x80 + n / 0x40 % 0x40) as Byte, (0x80 + n % 0x40) as Byte]
  }

  /** The UTF-8 encoding of a string. */
  function Utf8(s: string): (b: seq<Byte>)
    ensures |b| >= |s|
  {
    if s == [] then [] else Utf8Char(s[0]) + Utf8(s[1..])
  }

  /** Encoding a concatenation concatenates the encodings. */
  lemma {:induction false} Utf8Append(x: string, y: string)
    ensures Utf8(x + y) == Utf8(x) + Utf8(y)
    decreases |x|
  {
    if x == [] {
      assert x + y == y;
    } else {
      Utf8Append(x[1..], y);
      assert (x + y)[1..] == x[1..] + y;
    }
  }

  /** Only U+0000 is encoded with a zero byte. */
  lemma {:induction false} Utf8NoZero(s: string)
    requires '\0' !in s
    ensures 0 !in Utf8(s)
  {
    if s != [] {
      assert s == [s[0]] + s[1..];
      Utf8NoZero(s[1..]);
    }
  }
}
