/**
  The document identifier `_id` and its `toString()`: a 12-byte object id
  written as 24 lower-case hexadecimal digits.
*/
module Identity {
  import opened Wrappers
  import opened Bytes

  const ObjectIdLength: nat := 12

  type ObjectId = b: seq<Byte> | |b| == ObjectIdLength witness [0, 0, 0, 0, 0, 0, 0, 0, 0, 0, 0, 0]

  function HexDigit(n: int): char
    requires 0 <= n < 16
  {
    if n < 10 then ('0' as int + n) as char else ('a' as int + n - 10) as char
  }

  /** The value of a lower-case hexadecimal digit. */
  function HexValue(c: char): Option<int> {
    if '0' <= c <= '9' then Some(c as int - '0' as int)
    else if 'a' <= c <= 'f' then Some(c as int - 'a' as int + 10)
    else None
  }

  lemma HexDigitValue(n: int)
    requires 0 <= n < 16
    ensures HexValue(HexDigit(n)) == Some(n)
  {
  }

  /** Two hexadecimal digits per byte, high nibble first. */
  function ToHex(bytes: seq<Byte>): (s: string)
    ensures |s| == 2 * |bytes|
  {
    if bytes == [] then []
    else [HexDigit(bytes[0] as int / 16), HexDigit(bytes[0] as int % 16)] + ToHex(bytes[1..])
  }

  /** Reads back what ToHex writes; anything else is refused. */
  function FromHex(s: string): Option<seq<Byte>>
    decreases |s|
  {
    if s == [] then Some([])
    else if |s| < 2 then None
    else
      match (HexValue(s[0]), HexValue(s[1]), FromHex(s[2..]))
      case (Some(hi), Some(lo), Some(rest)) => Some([(16 * hi + lo) as Byte] + rest)
      case _ => None
  }

  /** `_id.toString()`: 24 hexadecimal digits that read back as the identifier. */
  function IdString(id: ObjectId): (s: string)
    ensures |s| == 2 * ObjectIdLength
    ensures FromHex(s) == Some(id)
  {
    HexRoundTrip(id);
    ToHex(id)
  }

  lemma {:induction false} HexRoundTrip(bytes: seq<Byte>)
    ensures FromHex(ToHex(bytes)) == Some(bytes)
  {
    if bytes != [] {
      var b := bytes[0] as int;
      HexDigitValue(b / 16);
      HexDigitValue(b % 16);
      HexRoundTrip(bytes[1..]);
      assert ToHex(bytes)[2..] == ToHex(bytes[1..]);
      assert [bytes[0]] + bytes[1..] == bytes;
    }
  }

  /** Distinct identifiers are written as distinct strings. */
  lemma IdStringInjective(a: ObjectId, b: ObjectId)
    requires IdString(a) == IdString(b)
    ensures a == b
  {
    HexRoundTrip(a);
    HexRoundTrip(b);
  }
}
