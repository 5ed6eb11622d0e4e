/** wallet/wallet.go: a wallet's key pair and address, the wallet-side
    transaction that gets signed, and the wallet server's request record. */
module Wallet {
  import opened Options
  import opened Hex
  import opened Json
  import opened Crypto
  import opened Utils

  /** The version byte in front of the public-key hash (0x00, main network). */
  const VERSION_BYTE: byte := 0x00
  /** Bytes of version byte plus public-key hash. */
  const VERSIONED_LENGTH: nat := 21
  /** Bytes of checksum taken from the double SHA-256. */
  const CHECKSUM_LENGTH: nat := 4
  /** Bytes of the whole address payload. */
  const PAYLOAD_LENGTH: nat := 25

  datatype Wallet = Wallet(privateKey: PrivateKey, publicKey: PublicKey, blockchainAddress: string)

  /** The wallet side's transaction: it carries key material for signing,
      but only the three ledger-visible fields are serialised. */
  datatype Transaction = Transaction(
    senderPrivateKey: PrivateKey,
    recipientPublicKey: PublicKey,
    senderAddress: string,
    recipientAddress: string,
    value: real)

  /** The body of a wallet-server transaction request; None stands for a
      field absent from the JSON (a nil pointer). */
  datatype TransactionRequest = TransactionRequest(
    senderPrivateKey: Option<string>,
    senderBlockchainAddress: Option<string>,
    recipientBlockchainAddress: Option<string>,
    senderPublicKey: Option<string>,
    value: Option<string>)

  // ---------------------------------------------------------------------------
  // Address derivation (Base58Check layout)

  /** RIPEMD-160 of SHA-256 of X.Bytes() followed by Y.Bytes(): the minimal
      big-endian encodings, not fixed-width ones. */
  function PublicKeyHash(p: Primitives, publicKey: PublicKey): Digest20 {
    p.ripemd160(p.sha256(ToBytes(publicKey.x) + ToBytes(publicKey.y)))
  }

  /** The first four bytes of SHA-256 applied twice. */
  function Checksum(p: Primitives, versioned: seq<byte>): seq<byte> {
    p.sha256(p.sha256(versioned))[..CHECKSUM_LENGTH]
  }

  /** Version byte, public-key hash, checksum of those 21 bytes. */
  function AddressPayload(p: Primitives, publicKey: PublicKey): seq<byte> {
    var versioned := [VERSION_BYTE] + PublicKeyHash(p, publicKey);
    versioned + Checksum(p, versioned)
  }

  /** The address of a public key: its payload in base 58. */
  function Address(p: Primitives, publicKey: PublicKey): string {
    p.base58Encode(AddressPayload(p, publicKey))
  }

  /** What a holder of the decoded 25 bytes checks: the length, the version
      byte and the checksum; on success, the public-key hash inside. */
  function CheckPayload(p: Primitives, payload: seq<byte>): Option<Digest20> {
    if |payload| == PAYLOAD_LENGTH && payload[0] == VERSION_BYTE
       && payload[VERSIONED_LENGTH..] == Checksum(p, payload[..VERSIONED_LENGTH])
    then Some(payload[1..VERSIONED_LENGTH])
    else None
  }

  /** The payload is 25 bytes: byte 0 is the version byte, bytes 1..20 the
      public-key hash, bytes 21..24 the checksum of bytes 0..20. */
  lemma AddressPayloadLayout(p: Primitives, publicKey: PublicKey)
    ensures |AddressPayload(p, publicKey)| == PAYLOAD_LENGTH
    ensures AddressPayload(p, publicKey)[0] == VERSION_BYTE
    ensures AddressPayload(p, publicKey)[1..VERSIONED_LENGTH] == PublicKeyHash(p, publicKey)
    ensures AddressPayload(p, publicKey)[VERSIONED_LENGTH..]
         == Checksum(p, AddressPayload(p, publicKey)[..VERSIONED_LENGTH])
  {
    var versioned := [VERSION_BYTE] + PublicKeyHash(p, publicKey);
    assert AddressPayload(p, publicKey)[..VERSIONED_LENGTH] == versioned;
  }

  /** Every payload the wallet derives passes the checksum test and yields
      the public-key hash it was built from. */
  lemma AddressPayloadChecks(p: Primitives, publicKey: PublicKey)
    ensures CheckPayload(p, AddressPayload(p, publicKey)) == Some(PublicKeyHash(p, publicKey))
  {
    AddressPayloadLayout(p, publicKey);
  }

  /** Changing any one checksum byte of a derived payload makes the checksum
      test fail. */
  lemma ChecksumCorruptionDetected(p: Primitives, publicKey: PublicKey, i: nat, b: byte)
    requires VERSIONED_LENGTH <= i < PAYLOAD_LENGTH
    requires b != AddressPayload(p, publicKey)[i]
    ensures CheckPayload(p, AddressPayload(p, publicKey)[i := b]) == None
  {
    var payload := AddressPayload(p, publicKey);
    AddressPayloadLayout(p, publicKey);
    var corrupted := payload[i := b];
    assert corrupted[..VERSIONED_LENGTH] == payload[..VERSIONED_LENGTH];
    assert corrupted[VERSIONED_LENGTH..][i - VERSIONED_LENGTH] != payload[VERSIONED_LENGTH..][i - VERSIONED_LENGTH];
  }

  /** `NewWallet`, given the key pair `ecdsa.GenerateKey` drew: fills a 21-byte
      buffer with the version byte and the public-key hash, a 25-byte buffer
      with those bytes and the checksum, and base-58 encodes the latter. The
      address depends on the public key alone. */
  method NewWallet(p: Primitives, key: PrivateKey) returns (wallet: Wallet)
    ensures wallet.privateKey == key && wallet.publicKey == key.publicKey
    ensures wallet.blockchainAddress == Address(p, key.publicKey)
  {
    var publicKey := key.publicKey;
    var digest2 := p.sha256(ToBytes(publicKey.x) + ToBytes(publicKey.y));
    var digest3 := p.ripemd160(digest2);
    var versionByte4 := new byte[VERSIONED_LENGTH];
    versionByte4[0] := VERSION_BYTE;
    for i := 0 to 20
      invariant versionByte4[..i + 1] == [VERSION_BYTE] + digest3[..i]
    {
      versionByte4[i + 1] := digest3[i];
      assert versionByte4[..i + 2] == versionByte4[..i + 1] + [digest3[i]];
    }
    assert versionByte4[..] == [VERSION_BYTE] + PublicKeyHash(p, publicKey) by {
      assert versionByte4[..] == versionByte4[..21];
      assert digest3[..20] == digest3;
    }
    var versioned := versionByte4[..];
    var digest5 := p.sha256(versioned);
    var digest6 := p.sha256(digest5);
    var checksum := digest6[..CHECKSUM_LENGTH];
    var checksumBytes := new byte[PAYLOAD_LENGTH];
    for i := 0 to VERSIONED_LENGTH
      invariant checksumBytes[..i] == versioned[..i]
    {
      checksumBytes[i] := versioned[i];
      assert checksumBytes[..i + 1] == checksumBytes[..i] + [versioned[i]];
    }
    for i := 0 to CHECKSUM_LENGTH
      invariant checksumBytes[..VERSIONED_LENGTH + i] == versioned + checksum[..i]
    {
      checksumBytes[VERSIONED_LENGTH + i] := checksum[i];
      assert checksumBytes[..VERSIONED_LENGTH + i + 1]
          == checksumBytes[..VERSIONED_LENGTH + i] + [checksum[i]];
    }
    assert checksumBytes[..] == AddressPayload(p, publicKey) by {
      assert checksumBytes[..] == checksumBytes[..PAYLOAD_LENGTH];
      assert checksum[..CHECKSUM_LENGTH] == checksum;
    }
    var address := p.base58Encode(checksumBytes[..]);
    wallet := Wallet(key, publicKey, address);
  }

  // ---------------------------------------------------------------------------
  // Key material as text

  /** `PrivateKeyStr`: `%x` of D.Bytes(), the minimal big-endian bytes. */
  function PrivateKeyStr(wallet: Wallet): string {
    HexOfBytes(ToBytes(wallet.privateKey.d))
  }

  /** `PrivateKeyStr` is an even number of lowercase digits that denote D,
      without a leading zero byte, and at most 64 digits when D < 2^256. */
  lemma PrivateKeyStrShape(wallet: Wallet)
    ensures IsLowerHexString(PrivateKeyStr(wallet)) && |PrivateKeyStr(wallet)| % 2 == 0
    ensures IsHexString(PrivateKeyStr(wallet)) && HexValue(PrivateKeyStr(wallet)) == wallet.privateKey.d
    ensures |PrivateKeyStr(wallet)| >= 2 ==> PrivateKeyStr(wallet)[..2] != "00"
    ensures wallet.privateKey.d < Pow16(COMPONENT_DIGITS) ==> |PrivateKeyStr(wallet)| <= COMPONENT_DIGITS
  {
    var bs := ToBytes(wallet.privateKey.d);
    var str := PrivateKeyStr(wallet);
    DecodeHexOfBytes(bs);
    DecodeHexValue(str);
    if |bs| > 0 {
      HexOfBytesAt(bs, 0);
      assert bs[0] / 16 != 0 || bs[0] % 16 != 0;
      assert str[0] != '0' || str[1] != '0';
    }
    if wallet.privateKey.d < Pow16(COMPONENT_DIGITS) {
      ToBytesBound(wallet.privateKey.d, COMPONENT_DIGITS / 2);
    }
  }

  /** A number below 256^k has at most k minimal big-endian bytes. */
  lemma {:induction false} ToBytesBound(n: nat, k: nat)
    requires n < Pow16(2 * k)
    ensures |ToBytes(n)| <= k
  {
    if n > 0 {
      assert k > 0;
      assert Pow16(2 * k) == 256 * Pow16(2 * (k - 1));
      ToBytesBound(n / 256, k - 1);
    }
  }

  /** Reading back `PrivateKeyStr` with `PrivateKeyFromString` and the
      wallet's own public key gives the wallet's private key. */
  lemma PrivateKeyRoundTrip(wallet: Wallet)
    ensures PrivateKeyFromString(PrivateKeyStr(wallet), wallet.privateKey.publicKey) == wallet.privateKey
  {
    DecodeHexOfBytes(ToBytes(wallet.privateKey.d));
  }

  // ---------------------------------------------------------------------------
  // Signing

  /** `Transaction.MarshalJSON`: sender address, recipient address and value,
      in that order. */
  function TransactionJson(transaction: Transaction): JsonValue {
    JObject([
      ("senderAddress", JString(transaction.senderAddress)),
      ("recipientAddress", JString(transaction.recipientAddress)),
      ("value", JNumber(transaction.value))])
  }

  /** The serialised transaction names exactly the three ledger-visible
      fields, and it is the same whatever keys the transaction carries: no
      key material reaches the signed bytes. */
  lemma TransactionJsonFields(t1: Transaction, t2: Transaction)
    requires t1.senderAddress == t2.senderAddress && t1.recipientAddress == t2.recipientAddress
    requires t1.value == t2.value
    ensures Keys(TransactionJson(t1)) == ["senderAddress", "recipientAddress", "value"]
    ensures TransactionJson(t1) == TransactionJson(t2)
  {
  }

  /** What `GenerateSignature` signs: SHA-256 of the serialised transaction. */
  function SigningDigest(p: Primitives, transaction: Transaction): Digest32 {
    p.sha256(p.jsonMarshal(TransactionJson(transaction)))
  }

  /** `GenerateSignature`, with the random draw of `ecdsa.Sign` as `entropy`. */
  function GenerateSignature(p: Primitives, transaction: Transaction, entropy: nat): Signature {
    var (r, s) := p.ecdsaSign(entropy, transaction.senderPrivateKey, SigningDigest(p, transaction));
    Signature(r, s)
  }

  // ---------------------------------------------------------------------------
  // Requests

  /** `TransactionRequest.Validate`: all five fields present, or rejected. */
  function Validate(request: TransactionRequest): (valid: bool)
    ensures valid <==> (request.senderPrivateKey.Some? && request.senderBlockchainAddress.Some?
                        && request.recipientBlockchainAddress.Some? && request.senderPublicKey.Some?
                        && request.value.Some?)
  {
    !(request.senderPrivateKey.None? || request.recipientBlockchainAddress.None?
      || request.senderBlockchainAddress.None? || request.senderPublicKey.None?
      || request.value.None?)
  }
}
