# Go-Chain ledger, wallet and signature text, in Dafny

This project models the core of Go-Chain, a small proof-of-work blockchain
written in Go:

- **The ledger** (`chain/chain.go`) is a `Blockchain` object. It holds a pool
  of admitted transactions that are not yet sealed, and an append-only chain
  of blocks. The model is the class `Chain.Blockchain`, with `transactionPool`
  and `chain` fields that its methods reassign.
  - Admission: the reserved sender `"GO CHAIN"` needs no signature. Any other
    sender needs an ECDSA signature over SHA-256 of the transaction's JSON.
  - Sealing: the whole pool goes into a new block and the pool is emptied.
  - Mining: the reward transaction is admitted, the proof of work searches
    nonces upward from 0, and the pool is sealed against the hash of the last
    block.
  - Balances: a nested loop over every sealed transaction.
  - Hashing: a block's hash is SHA-256 of its JSON object with the members
    `timestamp`, `nonce`, `prevHash` (the previous hash as the 64 lowercase
    hex digits `%x` writes) and `transactions` (an array of objects with the
    members `senderAddress`, `recipientAddress` and `value`), in that order.
- **The wallet** (`wallet/wallet.go`) derives a Base58Check-style address
  from an ECDSA public key:
  - byte 0x00;
  - RIPEMD-160 of SHA-256 of X.Bytes() followed by Y.Bytes();
  - a four-byte double-SHA-256 checksum;
  - base 58 of those 25 bytes.

  The wallet also signs a transaction that serialises to the same three
  fields the ledger verifies, and validates its request records. `NewWallet`
  fills its 21- and 25-byte buffers in arrays, as the Go code does.
- **The signature text** (`utils/ecdsa.go`) carries signatures and keys
  across the HTTP boundary as hex:
  - `%064x%064x` for signatures;
  - the first 64 hex digits and the rest, each read as an unsigned big-endian
    integer, when parsing.

`fmt`'s `%x`, `encoding/hex`'s `DecodeString` and `math/big`'s
`SetBytes`/`Bytes` are defined exactly, in module `Hex`. The cryptographic
library calls are not defined. They are arrow-typed fields of
`Crypto.Primitives`:
- SHA-256 (32 bytes) and RIPEMD-160 (20 bytes);
- base 58;
- the JSON encoder;
- ECDSA signing and verification.

Each operation takes them as a parameter, and the ledger holds them as the
constant `crypto`. Clocks and randomness are parameters too:
- `now` for `time.Now()`;
- `entropy` for the random draw of `ecdsa.Sign`;
- the key pair that `ecdsa.GenerateKey` would draw.

Module `Protocol` connects the two sides:
- the wallet signs the very bytes the ledger verifies;
- the run of `main.go` ends with balances -1.0, 1.0 and the mining reward.

Modules and files:

| file | module | models |
|---|---|---|
| hex.dfy | Hex | `%x`, `%0Nx`, `hex.DecodeString`, `big.Int.SetBytes` / `Bytes` |
| options.dfy | Options | nil pointers as `None` |
| json.dfy | Json | the JSON values handed to the encoder |
| crypto.dfy | Crypto | key types and the library primitives |
| utils.dfy | Utils | utils/ecdsa.go |
| wallet.dfy | Wallet | wallet/wallet.go |
| chain.dfy | Chain | chain/chain.go |
| protocol.dfy | Protocol | wallet and ledger together; main.go |

## Model

| member | source | states |
|---|---|---|
| Hex.HexOfBytes | chain/chain.go:72 | `%x` of n bytes is 2n lowercase hex digits |
| Hex.HexOfBytesAt | chain/chain.go:166 | digit 2i of `%x` is the high nibble of byte i and digit 2i+1 its low nibble |
| Hex.DecodeHex | utils/ecdsa.go:21-22 | `hex.DecodeString` with the error dropped yields at most half as many bytes as characters |
| Hex.DecodeHexLength | utils/ecdsa.go:21-22 | on even-length valid hex, every pair is decoded |
| Hex.DecodeHexOfBytes | utils/ecdsa.go:39 | decoding what `%x` wrote gives back the bytes |
| Hex.ToBytes | wallet/wallet.go:46-47 | `Bytes()` is the minimal big-endian encoding: `SetBytes` reads it back as n, it is empty exactly for 0, and it never starts with a zero byte |
| Hex.FromBytesLeadingZero | utils/ecdsa.go:27-28 | a leading zero byte does not change the integer `SetBytes` yields |
| Hex.DecodeHexValue | utils/ecdsa.go:27-28 | hex-decoding then reading big-endian equals reading the digits as a base-16 number |
| Hex.HexDigitsValue | utils/ecdsa.go:17 | w digits of a number below 16^w read back as that number |
| Hex.PaddedHexExact | utils/ecdsa.go:17 | `%064x` of a number below 16^64 is exactly 64 digits, which read back as the number |
| Utils.SignatureString | utils/ecdsa.go:16-18 | `Signature.String` is lowercase hex of at least 128 digits |
| Utils.SignatureStringShape | utils/ecdsa.go:16-18 | for R, S below 2^256: exactly 128 digits, the first 64 denote R and the rest S |
| Utils.StringToBigIntTupleValue | utils/ecdsa.go:20-31 | on valid even-length hex, the pair is the values of the first 64 digits and of the rest |
| Utils.StringToBigIntTupleLeadingZeros | utils/ecdsa.go:20-31 | a pair of zero digits inserted after digit 64 changes neither integer |
| Utils.PublicKeyFromStringValue | utils/ecdsa.go:33-36 | curve P-256, X from the first 64 digits, Y from the rest |
| Utils.PrivateKeyFromStringValue | utils/ecdsa.go:38-43 | D is the value of the whole digit string and the given public key is kept unchanged |
| Utils.PrivateKeyLeadingZeros | utils/ecdsa.go:38-43 | leading "00" does not change the private key read |
| Utils.SignatureRoundTrip | utils/ecdsa.go:45-48 | `SignatureFromString(sig.String())` is sig whenever R, S < 2^256 |
| Wallet.AddressPayloadLayout | wallet/wallet.go:54-70 | the payload is 25 bytes: 0x00, the 20-byte public-key hash, then the first 4 bytes of double SHA-256 of bytes 0..20 |
| Wallet.AddressPayloadChecks | wallet/wallet.go:57-70 | every derived payload passes the version and checksum test and yields its public-key hash |
| Wallet.ChecksumCorruptionDetected | wallet/wallet.go:65-70 | changing any checksum byte makes the checksum test fail |
| Wallet.NewWallet | wallet/wallet.go:38-75 | the buffers filled byte by byte hold that payload; the wallet keeps the key pair; the address is the base 58 of the payload, so it depends on the public key alone |
| Wallet.PrivateKeyStrShape | wallet/wallet.go:81-83 | `PrivateKeyStr` is an even number of lowercase digits that denote D; it never starts with "00"; it has at most 64 digits when D < 2^256 |
| Wallet.ToBytesBound | wallet/wallet.go:81-83 | a number below 256^k has at most k minimal bytes |
| Wallet.PrivateKeyRoundTrip | wallet/wallet.go:81-83 | `PrivateKeyFromString(PrivateKeyStr())` with the wallet's public key is the wallet's private key |
| Wallet.TransactionJsonFields | wallet/wallet.go:120-130 | the JSON has exactly the keys senderAddress, recipientAddress, value in that order, and no key material affects it |
| Wallet.Validate | wallet/wallet.go:132-141 | true iff all five request fields are present |
| Chain.TransactionJsonLayout | chain/chain.go:97-107 | `Transaction.MarshalJSON` gives the object {senderAddress, recipientAddress, value}, in that order, holding the transaction's fields; equal documents mean equal transactions |
| Chain.TransactionsJsonItems | chain/chain.go:63-75 | the block's transactions array has one serialised transaction per transaction, in order, and equal arrays mean equal transaction lists |
| Chain.BlockJsonLayout | chain/chain.go:63-75 | `Block.MarshalJSON` gives the object {timestamp, nonce, prevHash, transactions}, in that order; prevHash is 64 lowercase hex digits that decode back to the previous hash; transactions is the serialised transaction list |
| Chain.BlockJsonInjective | chain/chain.go:58-75 | `Block.Hash` digests a document that determines every block field: blocks with the same document are equal and so hash alike |
| Chain.ValidProofNibbles | chain/chain.go:163-168 | `ValidProof` holds iff the first `zeros` nibbles of the trial block {0, nonce, prevHash, txs}'s hash are zero |
| Chain.LeastProofUnique | chain/chain.go:195-203 | the least passing nonce is unique |
| Chain.SealKeepsWellFormed | chain/chain.go:170-177 | appending a block that links to the last block's hash and carries its least proof keeps the hash-link invariant |
| Chain.Delta | chain/chain.go:184-189 | a transaction adds its value to its recipient, subtracts it from its sender, nets zero on a self-transfer and leaves other addresses alone |
| Chain.TotalAmountSnoc | chain/chain.go:179-193 | sealing one more block changes a balance by that block's net effect |
| Chain.TransactionsAmountAppend | chain/chain.go:182-190 | the net effect of two runs of transactions is the sum of their effects |
| Chain.SumDeltaValue | chain/chain.go:184-189 | over distinct addresses, one transaction moves +value to a listed recipient and -value from a listed sender |
| Chain.TransactionsConserve | chain/chain.go:182-190 | transactions among listed distinct addresses sum to zero over them |
| Chain.BalancesSumToZero | chain/chain.go:179-193 | the balances of distinct addresses that cover every participant ("GO CHAIN" included) sum to zero |
| Chain.Validate | chain/chain.go:222-231 | true iff all five request fields are present |
| Chain.Blockchain.constructor | chain/chain.go:205-212 | `NewBlockchain`: the chain is the genesis block alone, with nonce 0, no transactions and the hash of the zero block as prevHash; the pool is empty; address and port are stored; the chain is well formed |
| Chain.Blockchain.LastBlock | chain/chain.go:159-161 | the block at the end of the chain |
| Chain.Blockchain.AddTransaction | chain/chain.go:117-134 | returns true iff the sender is "GO CHAIN" or the signature verifies; then exactly that transaction is appended to the pool, otherwise the pool is unchanged; the chain is never touched, so a valid ledger stays valid, and no balance is consulted |
| Chain.Blockchain.CopyTransactionPool | chain/chain.go:142-150 | the copy equals the pool element by element |
| Chain.Blockchain.CreateNewBlock | chain/chain.go:152-157 | appends exactly one block with the given nonce and prevHash holding the old pool, keeps earlier blocks, empties the pool and leaves a non-empty chain |
| Chain.Blockchain.ProofOfWork | chain/chain.go:195-203 | returns the least non-negative nonce passing `ValidProof` over the last block's hash and the pool at difficulty 3, and changes nothing |
| Chain.Blockchain.Mining | chain/chain.go:170-177 | returns true; the chain grows by one block and keeps its prefix; the new block has timestamp `now` and links to the old last block's hash; it holds the old pool plus the reward transaction and its least proof; the pool ends empty; a well-formed chain stays well formed |
| Chain.Blockchain.CalculateTotalAmount | chain/chain.go:179-193 | the nested loops compute `TotalAmount`, the sum of each sealed transaction's effect on the address; pooled transactions do not count |
| Protocol.TransactionJsonAgrees | wallet/wallet.go:120-130 | the wallet's transaction serialises to the same JSON as the ledger's transaction with the same three fields |
| Protocol.SignedTransactionVerifies | wallet/wallet.go:113-118 | given ECDSA correctness for that one signature, the signature a wallet makes passes the ledger's `VerifyTransactionSignature` with the wallet's public key |
| Protocol.TransportedSignatureVerifies | chain/chain.go:136-140 | given ECDSA correctness for that one signature and components below 2^256, it still passes after `Signature.String` and `SignatureFromString` |
| Protocol.SubmitSignedTransfer | main.go:21-28 | a transfer signed with the sender's own key is always admitted, and the pool gains exactly it |
| Protocol.BalancesAfterOneBlock | chain/chain.go:179-193 | for an empty genesis block followed by one block of two transactions, a balance is the two transactions' effects |
| Protocol.MineAndTally | main.go:30-35 | mining a pool holding one transfer leaves the sender at -value, the recipient at +value and the miner at the reward |
| Protocol.TransferAndMine | main.go:25-35 | a fresh ledger admits the signed transfer and, after one mining round, reports those three balances |
| Protocol.Demonstration | main.go:15-36 | the run of `main.go`: the transfer is added and the balances are A -1.0, B 1.0, miner 0.1 |
| Protocol.MineFreshLedger | chain/chain.go:170-177 | mining a fresh ledger gives two blocks; the second holds only the reward and links to the genesis block; the chain stays well formed |

## Left out

- Chain.Blockchain.ProofOfWork: the Go loop searches without bound. The model requires some nonce to pass, so the loop has a termination measure. Without such a nonce the source never returns, which is not modelled.
- Chain.Blockchain.Mining: requires a passing nonce to exist, for the same reason.
- Chain.Blockchain.CalculateTotalAmount: values and the reward are exact reals, not float32. The rounding of `0.1` and of the running sum is not modelled.
- Chain.Delta: exact reals as well, so a self-transfer nets exactly zero.
- Chain.BlockHash: values are finite reals, so the float32 NaN and ±Inf are not modelled, and neither is the error `encoding/json` returns for them. The Go code drops that error in `Block.Hash` (chain/chain.go:59), `VerifyTransactionSignature` (chain/chain.go:137) and `GenerateSignature` (wallet/wallet.go:113), and then hashes empty bytes. So every transfer with a non-finite value has one and the same signing digest, SHA-256 of nothing. A pool holding such a transfer gives a trial block whose hash is that same constant, which does not start with "000", so `ProofOfWork` never returns. No caller in the repository puts a non-finite value into the ledger.
- Chain.VerifyTransactionSignature and Wallet.SigningDigest: the same non-finite case, for the same reason.
- Logging: `AddTransaction`'s "Couldn't Verify" line (chain/chain.go:131) and `Mining`'s success line (chain/chain.go:175) go to `log.Println` and are not modelled. Neither affects the ledger.
- Protocol.Demonstration: assumes that the three derived addresses differ from each other and from "GO CHAIN", and that a nonce passes the proof of work. Neither follows from uninterpreted hashes. It also assumes ECDSA correctness for A's one signature over the transfer digest, checked against A's own public key. It signs once, where `main.go` signs a second time only to print the signature.
- Protocol.TransferAndMine: assumes the same two facts, and ECDSA correctness for the one signature it makes.
- Protocol.TransportedSignatureVerifies: assumes ECDSA correctness for the one signature, and that both components are below 2^256, as P-256 signatures are.
- Cryptography, base 58 and JSON bytes: SHA-256, RIPEMD-160, ECDSA, base 58 and the byte output of `encoding/json` are uninterpreted. Only the digest lengths are known. ECDSA correctness is never assumed for every key record: a record whose public key does not belong to its D would make such an assumption false of real ECDSA. Each member of `Protocol` that needs it assumes it for the single signature it reasons about, made with the wallet's own key pair.
- Key generation: `ecdsa.GenerateKey` and `crypto/rand` become a key-pair parameter of `NewWallet`. Signing randomness becomes the `entropy` parameter.
- nil and empty slices: both are the empty sequence. Go marshals a nil slice as `null` and an empty one as `[]`. The genesis block and the zero block have nil transactions in Go. Their hashes are uninterpreted here, so no property depends on the difference.
- Integer widths: the nonce (Go `int`) and timestamps (`int64`) are unbounded. The proof-of-work search never reaches a 64-bit limit in practice. Keys and signature components are non-negative numbers, as `SetBytes` produces them.
- Hex parsing errors: `hex.DecodeString` is modelled exactly, returning the bytes decoded before the first bad pair, with the error dropped as the Go code does. The value lemmas are stated for valid even-length hex.
- `Wallet.PublicKeyStr` and `Wallet.MarshalJSON`: they apply `%064x` to byte slices. Whether the zero flag pads a byte slice differs between Go versions, so they are not modelled.
- `Blockchain.MarshalJSON`, every `Print` method, the HTTP servers and their `main.go` files, and `utils/json.go`: output and I/O plumbing.
- Chain.Blockchain.AddTransaction: requires a public key and a signature for any sender other than "GO CHAIN". Go would dereference nil there and panic, which is not modelled. Every caller in the repository passes both: `main.go`, and `Mining` passing nil only for "GO CHAIN".
- Accessors (`PrivateKey`, `PublicKey`, `BlockchainAddress`): these are the fields of the `Wallet.Wallet` datatype.
- Strings are sequences of characters. Addresses and hex are ASCII, so bytes and characters coincide.
- `CreateNewBlock` is public in Go, and a caller that passes an arbitrary nonce or hash can break the hash-link invariant. The model keeps the same freedom; only `Mining` promises to keep the invariant.
