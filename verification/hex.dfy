/** Python's `bytes.hex()`: two lower-case hexadecimal digits per byte, high
    nibble first, together with the decoder that inverts it. */
module Hex {
  import opened Wrappers

  type byte = b: int | 0 <= b < 256

  /** The digit alphabet of `bytes.hex()`: `0`-`9` and lower-case `a`-`f`. */
  predicate IsHexDigit(c: char) {
    '0' <= c <= '9' || 'a' <= c <= 'f'
  }

  /** The digit for a nibble value. */
  function Digit(n: int): (c: char)
    requires 0 <= n < 16
    ensures IsHexDigit(c)
  {
    if n < 10 then ('0' as int + n) as char else ('a' as int + n - 10) as char
  }

  /** The nibble value of a lower-case hexadecimal digit, if `c` is one. */
  function DigitValue(c: char): (v: Option<int>)
    ensures v.Some? <==> IsHexDigit(c)
    ensures v.Some? ==> 0 <= v.value < 16 && Digit(v.value) == c
  {
    if '0' <= c <= '9' then Some(c as int - '0' as int)
    else if 'a' <= c <= 'f' then Some(c as int - 'a' as int + 10)
    else None
  }

  /** The hex text of a byte sequence. */
  function Encode(bs: seq<byte>): (s: string)
    ensures |s| == 2 * |bs|
  {
    if bs == [] then []
    else [Digit(bs[0] / 16), Digit(bs[0] % 16)] + Encode(bs[1..])
  }

  /** Reads hex text back into bytes; fails on odd length or a character
      outside the lower-case digit alphabet. */
  function Decode(s: string): (r: Option<seq<byte>>)
    ensures r.Some? ==> 2 * |r.value| == |s|
  {
    if s == [] then Some([])
    else if |s| == 1 then None
    else
      match (DigitValue(s[0]), DigitValue(s[1]), Decode(s[2..]))
      case (Some(hi), Some(lo), Some(rest)) => Some([16 * hi + lo] + rest)
      case _ => None
  }

  /** Byte `k` of the input appears as digits `2k` (high nibble) and `2k + 1`
      (low nibble) of its encoding. */
  lemma {:induction false} EncodeDigits(bs: seq<byte>, k: nat)
    requires k < |bs|
    ensures Encode(bs)[2 * k] == Digit(bs[k] / 16)
    ensures Encode(bs)[2 * k + 1] == Digit(bs[k] % 16)
  {
    if k > 0 {
      EncodeDigits(bs[1..], k - 1);
    }
  }

  /** Every character of an encoding is a lower-case hexadecimal digit. */
  lemma EncodeIsHexText(bs: seq<byte>)
    ensures forall k :: 0 <= k < |Encode(bs)| ==> IsHexDigit(Encode(bs)[k])
  {
    forall k | 0 <= k < |Encode(bs)|
      ensures IsHexDigit(Encode(bs)[k])
    {
      EncodeDigits(bs, k / 2);
    }
  }

  /** Decoding the encoding gives back the bytes. */
  lemma {:induction false} DecodeEncode(bs: seq<byte>)
    ensures Decode(Encode(bs)) == Some(bs)
  {
    if bs != [] {
      var s := Encode(bs);
      assert s[2..] == Encode(bs[1..]);
      DecodeEncode(bs[1..]);
      assert [bs[0]] + bs[1..] == bs;
    }
  }

  /** Any text that decodes is the encoding of what it decodes to, so the
      encoding and the decoder are inverse on lower-case hex text. */
  lemma {:induction false} EncodeDecode(s: string)
    requires Decode(s).Some?
    ensures Encode(Decode(s).value) == s
  {
    if s != [] {
      var hi := DigitValue(s[0]).value;
      var lo := DigitValue(s[1]).value;
      var bs := Decode(s).value;
      assert bs == [16 * hi + lo] + Decode(s[2..]).value;
      SplitByte(hi, lo);
      EncodeDecode(s[2..]);
      assert bs[1..] == Decode(s[2..]).value;
      assert [s[0], s[1]] + s[2..] == s;
    }
  }

  /** The high and low nibbles of the byte `16 * hi + lo`. */
  lemma SplitByte(hi: int, lo: int)
    requires 0 <= hi < 16 && 0 <= lo < 16
    ensures (16 * hi + lo) / 16 == hi && (16 * hi + lo) % 16 == lo
  {
  }

  /** Different byte sequences never share a hex text. */
  lemma EncodeInjective(a: seq<byte>, b: seq<byte>)
    ensures Encode(a) == Encode(b) <==> a == b
  {
    if Encode(a) == Encode(b) {
      DecodeEncode(a);
      DecodeEncode(b);
    }
  }
}
