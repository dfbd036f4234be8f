/** `encoding/hex`: the text form of BLOB cells. `EncodeToString` writes two
    lower-case digits per byte, high nibble first; `DecodeString` reads them
    back, accepting either case. */
module Hex {
  import opened Types

  const Digits: string := "0123456789abcdef"

  predicate IsLowerHexDigit(c: char) {
    c in Digits
  }

  /** `hex.EncodeToString`. */
  function Encode(bs: seq<byte>): (h: string)
    ensures |h| == 2 * |bs|
    ensures forall k :: 0 <= k < |h| ==> IsLowerHexDigit(h[k])
  {
    if bs == [] then []
    else
      var rest := Encode(bs[1..]);
      var h := [Digits[bs[0] / 16], Digits[bs[0] % 16]] + rest;
      assert forall k :: 2 <= k < |h| ==> h[k] == rest[k - 2];
      h
  }

  /** Byte `i` is written at `2 * i`: its high nibble, then its low one. */
  lemma {:induction false} EncodeAt(bs: seq<byte>, i: nat)
    requires i < |bs|
    ensures Encode(bs)[2 * i] == Digits[bs[i] / 16] && Encode(bs)[2 * i + 1] == Digits[bs[i] % 16]
  {
    if i > 0 {
      var rest := Encode(bs[1..]);
      var h := Encode(bs);
      assert h == [Digits[bs[0] / 16], Digits[bs[0] % 16]] + rest;
      var j := i - 1;
      EncodeAt(bs[1..], j);
      assert bs[1..][j] == bs[i];
      assert 2 * i == 2 * j + 2;
      assert h[2 * j + 2] == rest[2 * j] && h[2 * j + 3] == rest[2 * j + 1];
    }
  }

  /** The value of one hex digit of either case. */
  function DigitValue(c: char): (v: Option<nat>)
    ensures v.Some? ==> v.value < 16
  {
    if '0' <= c <= '9' then Some(c as int - '0' as int)
    else if 'a' <= c <= 'f' then Some(c as int - 'a' as int + 10)
    else if 'A' <= c <= 'F' then Some(c as int - 'A' as int + 10)
    else None
  }

  /** `hex.DecodeString`: `None` for an odd length or a non-digit. */
  function Decode(h: string): Option<seq<byte>>
    decreases |h|
  {
    if h == [] then Some([])
    else if |h| == 1 then None
    else
      match (DigitValue(h[0]), DigitValue(h[1]), Decode(h[2..]))
      case (Some(hi), Some(lo), Some(rest)) => Some([hi * 16 + lo] + rest)
      case _ => None
  }

  lemma DigitValueOfDigits(n: nat)
    requires n < 16
    ensures DigitValue(Digits[n]) == Some(n)
  {
  }

  /** Two digits in front decode to one byte in front. */
  lemma DecodePair(hi: nat, lo: nat, rest: string)
    requires hi < 16 && lo < 16
    ensures Decode([Digits[hi], Digits[lo]] + rest) ==
      match Decode(rest)
      case None => None
      case Some(r) => Some([hi * 16 + lo] + r)
  {
    var h := [Digits[hi], Digits[lo]] + rest;
    DigitValueOfDigits(hi);
    DigitValueOfDigits(lo);
    assert h[0] == Digits[hi] && h[1] == Digits[lo] && h[2..] == rest;
  }

  /** Decoding the encoding gives the bytes back. */
  lemma {:induction false} DecodeEncode(bs: seq<byte>)
    ensures Decode(Encode(bs)) == Some(bs)
  {
    if bs != [] {
      var b := bs[0];
      var hi, lo := b / 16, b % 16;
      var rest := Encode(bs[1..]);
      DecodeEncode(bs[1..]);
      DecodePair(hi, lo, rest);
      assert hi * 16 + lo == b;
      assert [b] + bs[1..] == bs;
    }
  }
}
