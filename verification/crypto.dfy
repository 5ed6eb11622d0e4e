/** The library code the ledger calls but that this model does not open:
    SHA-256, RIPEMD-160, base-58 encoding, the bytes `encoding/json` writes,
    and ECDSA signing and verification over curve P-256. Each is a
    parameter, known only through the length of its digests. */
module Crypto {
  import opened Hex
  import opened Json

  /** A SHA-256 digest: 32 bytes. */
  type Digest32 = s: seq<byte> | |s| == 32 witness seq(32, _ => 0)

  /** A RIPEMD-160 digest: 20 bytes. */
  type Digest20 = s: seq<byte> | |s| == 20 witness seq(20, _ => 0)

  /** The only curve the system uses. */
  datatype Curve = P256

  /** `ecdsa.PublicKey`: a curve point given by its coordinates. */
  datatype PublicKey = PublicKey(curve: Curve, x: nat, y: nat)

  /** `ecdsa.PrivateKey`: the public key and the secret scalar D. */
  datatype PrivateKey = PrivateKey(publicKey: PublicKey, d: nat)

  datatype Primitives = Primitives(
    /** `sha256.Sum256` */
    sha256: seq<byte> -> Digest32,
    /** `ripemd160.New().Write(..).Sum(nil)` */
    ripemd160: seq<byte> -> Digest20,
    /** `base58.Encode` of btcutil */
    base58Encode: seq<byte> -> string,
    /** the bytes `json.Marshal` writes for a document of the given shape; it is
        total because numbers are finite reals, so its error never arises */
    jsonMarshal: JsonValue -> seq<byte>,
    /** `ecdsa.Sign(rand, priv, hash)`: the random draw is the first argument; yields (r, s) */
    ecdsaSign: (nat, PrivateKey, seq<byte>) -> (nat, nat),
    /** `ecdsa.Verify(pub, hash, r, s)` */
    ecdsaVerify: (PublicKey, seq<byte>, nat, nat) -> bool
  )
}
