/** Go's `%x` verb applied to a byte slice: two lower-case hexadecimal digits per
    byte, most significant nibble first, and the empty string for no bytes. */
module Hex {
  import opened ByteStrings
  import opened Wrappers

  /** The byte of the lower-case hexadecimal digit for `n`. */
  function Digit(n: int): (d: byte)
    requires 0 <= n < 16
    ensures IsDigit(d)
  {
    if n < 10 then (48 + n) as byte else (87 + n) as byte
  }

  /** '0'..'9' or 'a'..'f'. */
  predicate IsDigit(d: byte) {
    48 <= d <= 57 || 97 <= d <= 102
  }

  function DigitValue(d: byte): (n: int)
    requires IsDigit(d)
    ensures 0 <= n < 16
    ensures Digit(n) == d
  {
    if d <= 57 then d as int - 48 else d as int - 87
  }

  function Encode(bs: Bytes): (h: Bytes)
  {
    if |bs| == 0 then []
    else [Digit(bs[0] as int / 16), Digit(bs[0] as int % 16)] + Encode(bs[1..])
  }

  /** The inverse of `Encode`: `None` for an odd length or a byte that is not a
      lower-case hexadecimal digit. */
  function Decode(h: Bytes): (r: Option<Bytes>)
    decreases |h|
  {
    if |h| == 0 then Some([])
    else if |h| == 1 || !IsDigit(h[0]) || !IsDigit(h[1]) then None
    else
      match Decode(h[2..])
      case None => None
      case Some(rest) => Some([(DigitValue(h[0]) * 16 + DigitValue(h[1])) as byte] + rest)
  }

  /** Two characters per byte, every one a lower-case hexadecimal digit. */
  lemma {:induction false} EncodeShape(bs: Bytes)
    ensures |Encode(bs)| == 2 * |bs|
    ensures forall i :: 0 <= i < |Encode(bs)| ==> IsDigit(Encode(bs)[i])
  {
    if |bs| > 0 {
      EncodeShape(bs[1..]);
      var e := Encode(bs);
      var t := Encode(bs[1..]);
      forall i | 0 <= i < |e|
        ensures IsDigit(e[i])
      {
        if i >= 2 {
          assert e[i] == t[i - 2];
        }
      }
    }
  }

  /** Byte `k` of the input is rendered at positions 2k and 2k+1. */
  lemma {:induction false} EncodeAt(bs: Bytes, k: int)
    requires 0 <= k < |bs|
    ensures |Encode(bs)| == 2 * |bs|
    ensures Encode(bs)[2 * k] == Digit(bs[k] as int / 16)
    ensures Encode(bs)[2 * k + 1] == Digit(bs[k] as int % 16)
  {
    EncodeShape(bs);
    if k > 0 {
      EncodeAt(bs[1..], k - 1);
      EncodeShape(bs[1..]);
    }
  }

  lemma {:induction false} DecodeEncode(bs: Bytes)
    ensures Decode(Encode(bs)) == Some(bs)
  {
    if |bs| > 0 {
      DecodeEncode(bs[1..]);
      var e := Encode(bs);
      var b := bs[0] as int;
      assert e[2..] == Encode(bs[1..]);
      assert DigitValue(e[0]) == b / 16;
      assert DigitValue(e[1]) == b % 16;
      assert [bs[0]] + bs[1..] == bs;
    }
  }

  /** `%x` loses nothing: different byte strings print differently. */
  lemma EncodeInjective(a: Bytes, b: Bytes)
    requires Encode(a) == Encode(b)
    ensures a == b
  {
    DecodeEncode(a);
    DecodeEncode(b);
  }
}
