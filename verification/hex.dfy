/** Bytes, hexadecimal text and unsigned big-endian integers, the way the
    ledger's Go code handles them through `fmt` (`%x`, `%064x`),
    `encoding/hex` (`hex.DecodeString`) and `math/big` (`SetBytes`, `Bytes`). */
module Hex {

  type byte = x: int | 0 <= x < 256

  /** 16 to the power n. */
  function Pow16(n: nat): (r: nat)
    ensures r >= 1
  {
    if n == 0 then 1 else 16 * Pow16(n - 1)
  }

  // ---------------------------------------------------------------------------
  // Single digits

  /** A digit `hex.DecodeString` accepts: 0-9, a-f or A-F. */
  predicate IsHexChar(c: char) {
    '0' <= c <= '9' || 'a' <= c <= 'f' || 'A' <= c <= 'F'
  }

  /** A digit `%x` writes: 0-9 or a-f. */
  predicate IsLowerHexChar(c: char) {
    '0' <= c <= '9' || 'a' <= c <= 'f'
  }

  predicate IsHexString(s: string) {
    forall i :: 0 <= i < |s| ==> IsHexChar(s[i])
  }

  predicate IsLowerHexString(s: string) {
    forall i :: 0 <= i < |s| ==> IsLowerHexChar(s[i])
  }

  /** The value of one hex digit, either case. */
  function HexCharValue(c: char): (v: int)
    requires IsHexChar(c)
    ensures 0 <= v < 16
  {
    if '0' <= c <= '9' then c as int - '0' as int
    else if 'a' <= c <= 'f' then c as int - 'a' as int + 10
    else c as int - 'A' as int + 10
  }

  /** The lowercase digit `%x` writes for a nibble; it reads back as the same
      nibble, and it is '0' exactly for the nibble 0. */
  function HexDigit(d: int): (c: char)
    requires 0 <= d < 16
    ensures IsLowerHexChar(c) && IsHexChar(c)
    ensures HexCharValue(c) == d
    ensures c == '0' <==> d == 0
  {
    if d < 10 then ('0' as int + d) as char else ('a' as int + d - 10) as char
  }

  // ---------------------------------------------------------------------------
  // Byte strings as hex text

  /** `fmt.Sprintf("%x", bs)`: two lowercase digits per byte, high nibble first. */
  function HexOfBytes(bs: seq<byte>): (s: string)
    ensures |s| == 2 * |bs|
    ensures IsLowerHexString(s) && IsHexString(s)
  {
    if bs == [] then [] else [HexDigit(bs[0] / 16), HexDigit(bs[0] % 16)] + HexOfBytes(bs[1..])
  }

  /** Digit 2i of `%x` is the high nibble of byte i, digit 2i+1 its low nibble. */
  lemma {:induction false} HexOfBytesAt(bs: seq<byte>, i: nat)
    requires i < |bs|
    ensures HexOfBytes(bs)[2 * i] == HexDigit(bs[i] / 16)
    ensures HexOfBytes(bs)[2 * i + 1] == HexDigit(bs[i] % 16)
  {
    if i > 0 {
      HexOfBytesAt(bs[1..], i - 1);
    }
  }

  /** `hex.DecodeString(s)` with its error discarded, as the Go code does:
      the bytes decoded from the complete digit pairs before the first pair
      holding a non-digit; a trailing odd digit is dropped. */
  function DecodeHex(s: string): (bs: seq<byte>)
    ensures |bs| <= |s| / 2
  {
    if |s| < 2 || !IsHexChar(s[0]) || !IsHexChar(s[1]) then []
    else [16 * HexCharValue(s[0]) + HexCharValue(s[1])] + DecodeHex(s[2..])
  }

  /** On well-formed input `hex.DecodeString` decodes every pair. */
  lemma {:induction false} DecodeHexLength(s: string)
    requires IsHexString(s) && |s| % 2 == 0
    ensures |DecodeHex(s)| == |s| / 2
  {
    if |s| >= 2 {
      DecodeHexLength(s[2..]);
    }
  }

  /** Decoding what `%x` wrote gives back the bytes. */
  lemma {:induction false} DecodeHexOfBytes(bs: seq<byte>)
    ensures DecodeHex(HexOfBytes(bs)) == bs
  {
    if bs != [] {
      var s := HexOfBytes(bs);
      assert s[2..] == HexOfBytes(bs[1..]);
      DecodeHexOfBytes(bs[1..]);
    }
  }

  /** Appending one more valid pair appends one more byte. */
  lemma {:induction false} DecodeHexSnoc(s: string, hi: char, lo: char)
    requires IsHexString(s) && |s| % 2 == 0
    requires IsHexChar(hi) && IsHexChar(lo)
    ensures DecodeHex(s + [hi, lo]) == DecodeHex(s) + [16 * HexCharValue(hi) + HexCharValue(lo)]
  {
    if |s| >= 2 {
      assert (s + [hi, lo])[2..] == s[2..] + [hi, lo];
      DecodeHexSnoc(s[2..], hi, lo);
    }
  }

  // ---------------------------------------------------------------------------
  // Unsigned big-endian integers

  /** `new(big.Int).SetBytes(bs)`: bs read as an unsigned big-endian number. */
  function FromBytes(bs: seq<byte>): nat {
    if bs == [] then 0 else 256 * FromBytes(bs[..|bs| - 1]) + bs[|bs| - 1]
  }

  /** `n.Bytes()` of a non-negative big.Int: the shortest big-endian byte
      string of n (empty for zero, never a leading zero byte), which
      `SetBytes` reads back as n. */
  function ToBytes(n: nat): (bs: seq<byte>)
    ensures FromBytes(bs) == n
    ensures |bs| == 0 <==> n == 0
    ensures |bs| > 0 ==> bs[0] != 0
    decreases n
  {
    if n == 0 then [] else ToBytes(n / 256) + [n % 256]
  }

  /** A leading zero byte does not change what `SetBytes` yields: the
      reading is unsigned and big-endian. */
  lemma {:induction false} FromBytesLeadingZero(bs: seq<byte>)
    ensures FromBytes([0] + bs) == FromBytes(bs)
  {
    if bs != [] {
      assert ([0] + bs)[..|bs|] == [0] + bs[..|bs| - 1];
      FromBytesLeadingZero(bs[..|bs| - 1]);
    }
  }

  /** The number a string of hex digits denotes, most significant first. */
  function HexValue(s: string): nat
    requires IsHexString(s)
  {
    if s == [] then 0 else 16 * HexValue(s[..|s| - 1]) + HexCharValue(s[|s| - 1])
  }

  /** Decoding hex to bytes and reading them big-endian is reading the digits
      as a base-16 number. */
  lemma {:induction false} DecodeHexValue(s: string)
    requires IsHexString(s) && |s| % 2 == 0
    ensures FromBytes(DecodeHex(s)) == HexValue(s)
    decreases |s|
  {
    if s != [] {
      var n := |s|;
      var t := s[..n - 2];
      assert s == t + [s[n - 2], s[n - 1]];
      DecodeHexSnoc(t, s[n - 2], s[n - 1]);
      DecodeHexValue(t);
      var d := DecodeHex(t);
      var b := 16 * HexCharValue(s[n - 2]) + HexCharValue(s[n - 1]);
      assert (d + [b])[..|d|] == d;
      assert s[..n - 1] == t + [s[n - 2]];
      assert (t + [s[n - 2]])[..n - 2] == t;
    }
  }

  // ---------------------------------------------------------------------------
  // Integers as padded hex text

  /** The w lowest hex digits of n, most significant first. */
  function HexDigits(n: nat, w: nat): (s: string)
    ensures |s| == w
    ensures IsLowerHexString(s) && IsHexString(s)
  {
    if w == 0 then [] else HexDigits(n / 16, w - 1) + [HexDigit(n % 16)]
  }

  /** How many digits `%x` writes for n ("0" for zero). */
  function NumHexDigits(n: nat): (k: nat)
    ensures k >= 1
  {
    if n < 16 then 1 else 1 + NumHexDigits(n / 16)
  }

  /** `fmt.Sprintf("%0<width>x", n)` for a non-negative big.Int: the hex digits
      of n, padded with zeros on the left to at least `width` digits. */
  function PaddedHex(n: nat, width: nat): string {
    HexDigits(n, if width < NumHexDigits(n) then NumHexDigits(n) else width)
  }

  /** Reading back w digits of a number below 16^w gives the number. */
  lemma {:induction false} HexDigitsValue(n: nat, w: nat)
    requires n < Pow16(w)
    ensures HexValue(HexDigits(n, w)) == n
  {
    if w > 0 {
      HexDigitsValue(n / 16, w - 1);
      var t := HexDigits(n / 16, w - 1);
      assert (t + [HexDigit(n % 16)])[..w - 1] == t;
    }
  }

  /** A number below 16^w has at most w digits. */
  lemma {:induction false} NumHexDigitsBound(n: nat, w: nat)
    requires 1 <= w && n < Pow16(w)
    ensures NumHexDigits(n) <= w
  {
    if n >= 16 {
      NumHexDigitsBound(n / 16, w - 1);
    }
  }

  /** Padded to `width` digits, a number below 16^width takes exactly `width`
      digits, all lowercase, and they read back as the number. */
  lemma PaddedHexExact(n: nat, width: nat)
    requires 1 <= width && n < Pow16(width)
    ensures PaddedHex(n, width) == HexDigits(n, width)
    ensures |PaddedHex(n, width)| == width
    ensures IsHexString(PaddedHex(n, width)) && HexValue(PaddedHex(n, width)) == n
  {
    NumHexDigitsBound(n, width);
    HexDigitsValue(n, width);
  }
}
