/** byte_to_hex_string: upper-case hexadecimal text of a byte sequence, as
    written and as evidently intended. */
module Hex {
  import opened Bytes

  const DIGITS := "0123456789ABCDEF"

  function HexDigit(n: nat): char
    requires n < 16
  {
    DIGITS[n]
  }

  /** Value of an upper-case hexadecimal digit. */
  function DigitValue(c: char): (v: nat)
    ensures v < 16
  {
    if '0' <= c <= '9' then (c - '0') as nat
    else if 'A' <= c <= 'F' then (c - 'A') as nat + 10
    else 0
  }

  lemma DigitRoundTrip(n: nat)
    requires n < 16
    ensures DigitValue(HexDigit(n)) == n
  {
  }

  // ---------------------------------------------------------------------
  // As written

  /** `hex(x)[2:].upper()`: one digit below 0x10, two from 0x10 on. */
  function HexUnpadded(x: byte): (s: string)
    ensures |s| == if x < 16 then 1 else 2
  {
    if x < 16 then [HexDigit(x)] else [HexDigit(x / 16), HexDigit(x % 16)]
  }

  function JoinUnpadded(values: seq<byte>): string
  {
    if values == [] then "" else HexUnpadded(values[0]) + JoinUnpadded(values[1..])
  }

  /** byte_to_hex_string as written: the digits joined, then one '0' in
      front when their count is odd. */
  function ByteToHexString(values: seq<byte>): (h: string)
    ensures |h| % 2 == 0
  {
    var s := JoinUnpadded(values);
    if |s| % 2 > 0 then "0" + s else s
  }

  /** Two different byte sequences print the same text: 0x12 and 0x01 0x02
      both give "12", where the second should read "0102". */
  lemma ByteToHexStringCollides()
    ensures ByteToHexString([0x12]) == "12"
    ensures ByteToHexString([0x01, 0x02]) == "12"
    ensures HexString([0x01, 0x02]) == "0102"
  {
    assert [0x01 as byte, 0x02][1..] == [0x02];
  }

  // ---------------------------------------------------------------------
  // As intended

  /** Two digits per byte, high nibble first. */
  function HexPair(x: byte): (s: string)
    ensures |s| == 2
  {
    [HexDigit(x / 16), HexDigit(x % 16)]
  }

  function HexString(values: seq<byte>): (h: string)
    ensures |h| == 2 * |values|
  {
    if values == [] then "" else HexPair(values[0]) + HexString(values[1..])
  }

  /** Reads the text back two digits at a time. */
  function ParseHex(s: string): (r: seq<byte>)
    requires |s| % 2 == 0
    ensures |r| == |s| / 2
  {
    if s == [] then [] else [DigitValue(s[0]) * 16 + DigitValue(s[1])] + ParseHex(s[2..])
  }

  /** The intended text decodes back to the bytes, so no two byte sequences share one. */
  lemma {:induction false} HexStringRoundTrip(values: seq<byte>)
    ensures ParseHex(HexString(values)) == values
  {
    if values != [] {
      var x := values[0];
      DigitRoundTrip(x / 16);
      DigitRoundTrip(x % 16);
      var s := HexString(values);
      assert s[2..] == HexString(values[1..]);
      HexStringRoundTrip(values[1..]);
    }
  }

  /** Where no byte is below 0x10 the source's text is the intended one. */
  lemma {:induction false} ByteToHexStringAgrees(values: seq<byte>)
    requires forall k :: 0 <= k < |values| ==> values[k] >= 16
    ensures ByteToHexString(values) == HexString(values)
  {
    JoinAgrees(values);
    EvenLength(|values|);
  }

  lemma EvenLength(n: nat)
    ensures (2 * n) % 2 == 0
  {
  }

  lemma {:induction false} JoinAgrees(values: seq<byte>)
    requires forall k :: 0 <= k < |values| ==> values[k] >= 16
    ensures JoinUnpadded(values) == HexString(values)
  {
    if values != [] {
      JoinAgrees(values[1..]);
    }
  }
}
