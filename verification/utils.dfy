/** utils/ecdsa.go: the text forms of signatures and keys that cross the
    system's HTTP boundary. */
module Utils {
  import opened Hex
  import opened Crypto

  /** Hex digits per signature component and per public-key coordinate. */
  const COMPONENT_DIGITS: nat := 64


  /** `utils.Signature`: the two ECDSA components. */
  datatype Signature = Signature(r: nat, s: nat)

  /** `Signature.String`: `%064x%064x` of R and S, lowercase digits, each
      component taking at least 64 of them. */
  function SignatureString(sig: Signature): (str: string)
    ensures |str| >= 2 * COMPONENT_DIGITS
    ensures IsLowerHexString(str)
  {
    PaddedHex(sig.r, COMPONENT_DIGITS) + PaddedHex(sig.s, COMPONENT_DIGITS)
  }

  /** `StringToBigIntTuple`: the first 64 characters and the rest, each
      hex-decoded (errors discarded) and read as an unsigned big-endian
      integer. A string shorter than 64 characters makes the slice panic. */
  function StringToBigIntTuple(str: string): (nat, nat)
    requires |str| >= COMPONENT_DIGITS
  {
    (FromBytes(DecodeHex(str[..COMPONENT_DIGITS])), FromBytes(DecodeHex(str[COMPONENT_DIGITS..])))
  }

  /** `PublicKeyFromString`: X from the first 64 digits, Y from the rest, on P-256. */
  function PublicKeyFromString(str: string): PublicKey
    requires |str| >= COMPONENT_DIGITS
  {
    var (x, y) := StringToBigIntTuple(str);
    PublicKey(P256, x, y)
  }

  /** `PrivateKeyFromString`: D is the whole string hex-decoded; the public
      key is the one given. */
  function PrivateKeyFromString(str: string, publicKey: PublicKey): PrivateKey {
    PrivateKey(publicKey, FromBytes(DecodeHex(str)))
  }

  /** `SignatureFromString`: R from the first 64 digits, S from the rest. */
  function SignatureFromString(str: string): Signature
    requires |str| >= COMPONENT_DIGITS
  {
    var (r, s) := StringToBigIntTuple(str);
    Signature(r, s)
  }

  /** Components below 2^256 (= 16^64) give a 128-digit lowercase string,
      R's 64 digits first. */
  lemma SignatureStringShape(sig: Signature)
    requires sig.r < Pow16(COMPONENT_DIGITS) && sig.s < Pow16(COMPONENT_DIGITS)
    ensures |SignatureString(sig)| == 2 * COMPONENT_DIGITS
    ensures IsLowerHexString(SignatureString(sig))
    ensures HexValue(SignatureString(sig)[..COMPONENT_DIGITS]) == sig.r
    ensures HexValue(SignatureString(sig)[COMPONENT_DIGITS..]) == sig.s
  {
    PaddedHexExact(sig.r, COMPONENT_DIGITS);
    PaddedHexExact(sig.s, COMPONENT_DIGITS);
    var str := SignatureString(sig);
    assert str[..COMPONENT_DIGITS] == PaddedHex(sig.r, COMPONENT_DIGITS);
    assert str[COMPONENT_DIGITS..] == PaddedHex(sig.s, COMPONENT_DIGITS);
  }

  /** On well-formed hex, `StringToBigIntTuple` yields the numbers the two
      digit strings denote. */
  lemma StringToBigIntTupleValue(str: string)
    requires |str| >= COMPONENT_DIGITS && |str| % 2 == 0 && IsHexString(str)
    ensures StringToBigIntTuple(str) == (HexValue(str[..COMPONENT_DIGITS]), HexValue(str[COMPONENT_DIGITS..]))
  {
    DecodeHexValue(str[..COMPONENT_DIGITS]);
    DecodeHexValue(str[COMPONENT_DIGITS..]);
  }

  /** `PublicKeyFromString` on well-formed hex: curve P-256, X and Y the
      values of the two digit strings. */
  lemma PublicKeyFromStringValue(str: string)
    requires |str| >= COMPONENT_DIGITS && |str| % 2 == 0 && IsHexString(str)
    ensures PublicKeyFromString(str).curve == P256
    ensures PublicKeyFromString(str).x == HexValue(str[..COMPONENT_DIGITS])
    ensures PublicKeyFromString(str).y == HexValue(str[COMPONENT_DIGITS..])
  {
    StringToBigIntTupleValue(str);
  }

  /** `PrivateKeyFromString` on well-formed hex: D is the value of the digits
      and the public key is passed through unchanged. */
  lemma PrivateKeyFromStringValue(str: string, publicKey: PublicKey)
    requires |str| % 2 == 0 && IsHexString(str)
    ensures PrivateKeyFromString(str, publicKey).d == HexValue(str)
    ensures PrivateKeyFromString(str, publicKey).publicKey == publicKey
  {
    DecodeHexValue(str);
  }

  /** Round trip: a signature whose components are below 2^256, written with
      `Signature.String` and read with `SignatureFromString`, is the same
      signature. */
  lemma SignatureRoundTrip(sig: Signature)
    requires sig.r < Pow16(COMPONENT_DIGITS) && sig.s < Pow16(COMPONENT_DIGITS)
    ensures SignatureFromString(SignatureString(sig)) == sig
  {
    SignatureStringShape(sig);
    StringToBigIntTupleValue(SignatureString(sig));
  }

  /** A pair of leading zero digits does not change the key D read from a
      string: `SetBytes` is unsigned and big-endian. */
  lemma PrivateKeyLeadingZeros(str: string, publicKey: PublicKey)
    ensures PrivateKeyFromString("00" + str, publicKey) == PrivateKeyFromString(str, publicKey)
  {
    assert ("00" + str)[2..] == str;
    FromBytesLeadingZero(DecodeHex(str));
  }

  /** Zero-padding the second component (after the first 64 digits) with a
      pair of zero digits does not change either decoded integer. */
  lemma StringToBigIntTupleLeadingZeros(str: string)
    requires |str| >= COMPONENT_DIGITS
    ensures StringToBigIntTuple(str[..COMPONENT_DIGITS] + "00" + str[COMPONENT_DIGITS..]) == StringToBigIntTuple(str)
  {
    var padded := str[..COMPONENT_DIGITS] + "00" + str[COMPONENT_DIGITS..];
    assert padded[..COMPONENT_DIGITS] == str[..COMPONENT_DIGITS];
    assert padded[COMPONENT_DIGITS..] == "00" + str[COMPONENT_DIGITS..];
    assert ("00" + str[COMPONENT_DIGITS..])[2..] == str[COMPONENT_DIGITS..];
    FromBytesLeadingZero(DecodeHex(str[COMPONENT_DIGITS..]));
  }
}
