/** chain/chain.go: the ledger. A Blockchain holds the pool of admitted,
    unsealed transactions and the append-only chain of blocks; blocks are
    sealed by a proof-of-work search over the hash of a trial block. */
module Chain {
  import opened Options
  import opened Hex
  import opened Json
  import opened Crypto
  import opened Utils

  /** Leading '0' hex digits a trial block's hash must have. */
  const MINING_ZEROS: nat := 3
  /** The reserved sender of mining rewards; it needs no signature. */
  const MINING_SENDER: string := "GO CHAIN"
  /** The reward a successful mining round credits (a float32 0.1 in Go). */
  const MINING_REWARD: real := 0.1
  /** Hex digits of a SHA-256 digest written with `%x`. */
  const HASH_DIGITS: nat := 64

  type uint16 = x: int | 0 <= x < 0x1_0000

  datatype Transaction = Transaction(senderAddress: string, recipientAddress: string, value: real)

  datatype Block = Block(timestamp: int, nonce: int, prevHash: Digest32, transactions: seq<Transaction>)

  /** The body of a chain-server transaction request; None stands for a
      field absent from the JSON (a nil pointer). */
  datatype TransactionRequest = TransactionRequest(
    senderBlockchainAddress: Option<string>,
    recipientBlockchainAddress: Option<string>,
    senderPublicKey: Option<string>,
    value: Option<real>,
    signature: Option<string>)

  // ---------------------------------------------------------------------------
  // Serialisation and hashing

  /** `Transaction.MarshalJSON`: sender address, recipient address, value. */
  function TransactionJson(transaction: Transaction): JsonValue {
    JObject([
      ("senderAddress", JString(transaction.senderAddress)),
      ("recipientAddress", JString(transaction.recipientAddress)),
      ("value", JNumber(transaction.value))])
  }

  function TransactionsJson(transactions: seq<Transaction>): seq<JsonValue> {
    if transactions == [] then []
    else [TransactionJson(transactions[0])] + TransactionsJson(transactions[1..])
  }

  /** `Block.MarshalJSON`: timestamp, nonce, the previous hash as lowercase
      hex, and the transactions. */
  function BlockJson(block: Block): JsonValue {
    JObject([
      ("timestamp", JNumber(block.timestamp as real)),
      ("nonce", JNumber(block.nonce as real)),
      ("prevHash", JString(HexOfBytes(block.prevHash))),
      ("transactions", JArray(TransactionsJson(block.transactions)))])
  }

  /** `Block.Hash`: SHA-256 of the block's JSON. */
  function BlockHash(p: Primitives, block: Block): Digest32 {
    p.sha256(p.jsonMarshal(BlockJson(block)))
  }

  /** A serialised transaction is an object with exactly the members
      senderAddress, recipientAddress and value, in that order, holding the
      transaction's fields; so it determines the transaction. */
  lemma TransactionJsonLayout(t: Transaction, u: Transaction)
    ensures Keys(TransactionJson(t)) == ["senderAddress", "recipientAddress", "value"]
    ensures TransactionJson(t).members[0].1 == JString(t.senderAddress)
    ensures TransactionJson(t).members[1].1 == JString(t.recipientAddress)
    ensures TransactionJson(t).members[2].1 == JNumber(t.value)
    ensures TransactionJson(t) == TransactionJson(u) <==> t == u
  {
  }

  /** The transactions array holds one serialised transaction per
      transaction, in chain order, and determines the transactions. */
  lemma {:induction false} TransactionsJsonItems(ts: seq<Transaction>, us: seq<Transaction>)
    ensures |TransactionsJson(ts)| == |ts|
    ensures forall i :: 0 <= i < |ts| ==> TransactionsJson(ts)[i] == TransactionJson(ts[i])
    ensures TransactionsJson(ts) == TransactionsJson(us) <==> ts == us
  {
    if ts != [] {
      TransactionsJsonItems(ts[1..], if us == [] then [] else us[1..]);
      assert ts == [ts[0]] + ts[1..];
      if us != [] {
        TransactionJsonLayout(ts[0], us[0]);
        assert us == [us[0]] + us[1..];
        if TransactionsJson(ts) == TransactionsJson(us) {
          assert TransactionsJson(ts)[0] == TransactionsJson(us)[0];
          assert TransactionsJson(ts)[1..] == TransactionsJson(us)[1..];
        }
      } else {
        assert |TransactionsJson(ts)| != |TransactionsJson(us)|;
      }
    } else if us != [] {
      assert TransactionsJson(us)[0] == TransactionJson(us[0]);
    }
  }

  /** The document `Block.Hash` digests: an object with the members
      timestamp, nonce, prevHash and transactions, in that order; prevHash is
      the 64 lowercase hex digits of the previous hash, which decode back to
      it, and transactions is the array of serialised transactions. */
  lemma BlockJsonLayout(block: Block)
    ensures Keys(BlockJson(block)) == ["timestamp", "nonce", "prevHash", "transactions"]
    ensures BlockJson(block).members[0].1 == JNumber(block.timestamp as real)
    ensures BlockJson(block).members[1].1 == JNumber(block.nonce as real)
    ensures var prev := BlockJson(block).members[2].1;
      prev.JString? && |prev.s| == HASH_DIGITS && IsLowerHexString(prev.s) && DecodeHex(prev.s) == block.prevHash
    ensures var txs := BlockJson(block).members[3].1;
      txs.JArray? && |txs.items| == |block.transactions| &&
      forall i :: 0 <= i < |block.transactions| ==> txs.items[i] == TransactionJson(block.transactions[i])
  {
    DecodeHexOfBytes(block.prevHash);
    TransactionsJsonItems(block.transactions, block.transactions);
  }

  /** Every field of a block reaches the bytes `Block.Hash` digests: two
      blocks with the same hashed document are the same block, so blocks
      that differ in any field hash the same only by a SHA-256 collision. */
  lemma BlockJsonInjective(p: Primitives, b1: Block, b2: Block)
    requires BlockJson(b1) == BlockJson(b2)
    ensures b1 == b2
    ensures BlockHash(p, b1) == BlockHash(p, b2)
  {
    assert BlockJson(b1).members[2].1.s == BlockJson(b2).members[2].1.s;
    DecodeHexOfBytes(b1.prevHash);
    DecodeHexOfBytes(b2.prevHash);
    assert BlockJson(b1).members[3].1.items == BlockJson(b2).members[3].1.items;
    TransactionsJsonItems(b1.transactions, b2.transactions);
  }

  /** The zero-valued `Block{}` whose hash the genesis block links to. */
  function ZeroBlock(): Block {
    Block(0, 0, seq(32, _ => 0), [])
  }

  /** The block `NewBlockchain` seals at time `now`. */
  function GenesisBlock(p: Primitives, now: int): Block {
    Block(now, 0, BlockHash(p, ZeroBlock()), [])
  }

  // ---------------------------------------------------------------------------
  // Signature verification

  /** `VerifyTransactionSignature`: ECDSA verification of SHA-256 of the
      transaction's JSON. */
  function VerifyTransactionSignature(p: Primitives, senderPublicKey: PublicKey, signature: Signature,
                                      transaction: Transaction): bool {
    p.ecdsaVerify(senderPublicKey, p.sha256(p.jsonMarshal(TransactionJson(transaction))), signature.r, signature.s)
  }

  // ---------------------------------------------------------------------------
  // Proof of work

  /** Nibble k of a digest: the digit `%x` writes at position k. */
  function Nibble(hash: Digest32, k: nat): int
    requires k < HASH_DIGITS
  {
    if k % 2 == 0 then hash[k / 2] / 16 else hash[k / 2] % 16
  }

  /** The first `zeros` nibbles of the digest are zero. */
  predicate LeadingZeroNibbles(hash: Digest32, zeros: nat)
    requires zeros <= HASH_DIGITS
  {
    forall k :: 0 <= k < zeros ==> Nibble(hash, k) == 0
  }

  /** `ValidProof`: the hash of the trial block {timestamp 0, nonce, prevHash,
      transactions}, written in hex, starts with `zeros` '0' digits. The
      slice `hashGuess[:zeros]` and `strings.Repeat` panic outside 0..64. */
  function ValidProof(p: Primitives, nonce: int, prevHash: Digest32, transactions: seq<Transaction>,
                      zeros: int): bool
    requires 0 <= zeros <= HASH_DIGITS
  {
    var hashGuess := HexOfBytes(BlockHash(p, Block(0, nonce, prevHash, transactions)));
    hashGuess[..zeros] == seq(zeros, _ => '0')
  }

  /** `ValidProof` holds exactly when the trial block's digest begins with
      `zeros` zero nibbles. */
  lemma ValidProofNibbles(p: Primitives, nonce: int, prevHash: Digest32, transactions: seq<Transaction>,
                          zeros: nat)
    requires zeros <= HASH_DIGITS
    ensures ValidProof(p, nonce, prevHash, transactions, zeros)
        <==> LeadingZeroNibbles(BlockHash(p, Block(0, nonce, prevHash, transactions)), zeros)
  {
    var hash := BlockHash(p, Block(0, nonce, prevHash, transactions));
    var hashGuess := HexOfBytes(hash);
    forall k | 0 <= k < zeros
      ensures hashGuess[k] == HexDigit(Nibble(hash, k))
    {
      HexOfBytesAt(hash, k / 2);
    }
    if LeadingZeroNibbles(hash, zeros) {
      assert hashGuess[..zeros] == seq(zeros, _ => '0');
    }
    if ValidProof(p, nonce, prevHash, transactions, zeros) {
      forall k | 0 <= k < zeros
        ensures Nibble(hash, k) == 0
      {
        assert hashGuess[..zeros][k] == '0';
      }
    }
  }

  /** The nonce `ProofOfWork` settles on: it passes `ValidProof` at the mining
      difficulty and no smaller non-negative nonce does. */
  predicate IsLeastProof(p: Primitives, nonce: int, prevHash: Digest32, transactions: seq<Transaction>) {
    && 0 <= nonce
    && ValidProof(p, nonce, prevHash, transactions, MINING_ZEROS)
    && forall k :: 0 <= k < nonce ==> !ValidProof(p, k, prevHash, transactions, MINING_ZEROS)
  }

  /** At most one nonce is the least proof for given inputs. */
  lemma LeastProofUnique(p: Primitives, n1: int, n2: int, prevHash: Digest32, transactions: seq<Transaction>)
    requires IsLeastProof(p, n1, prevHash, transactions) && IsLeastProof(p, n2, prevHash, transactions)
    ensures n1 == n2
  {
  }

  // ---------------------------------------------------------------------------
  // The chain invariant

  /** A chain as `NewBlockchain` and `Mining` build it: a genesis block with
      nonce 0 and no transactions that links to the zero block's hash, then
      blocks each holding the hash of its predecessor and the least nonce
      that passes the proof of work for its own contents. */
  predicate WellFormedChain(p: Primitives, chain: seq<Block>) {
    && |chain| >= 1
    && chain[0].nonce == 0
    && chain[0].transactions == []
    && chain[0].prevHash == BlockHash(p, ZeroBlock())
    && forall i :: 1 <= i < |chain| ==>
         && chain[i].prevHash == BlockHash(p, chain[i - 1])
         && IsLeastProof(p, chain[i].nonce, chain[i].prevHash, chain[i].transactions)
  }

  /** Appending a block that links to the last one and carries its least
      proof keeps a chain well formed. */
  lemma {:induction false} SealKeepsWellFormed(p: Primitives, chain: seq<Block>, block: Block)
    requires WellFormedChain(p, chain)
    requires block.prevHash == BlockHash(p, chain[|chain| - 1])
    requires IsLeastProof(p, block.nonce, block.prevHash, block.transactions)
    ensures WellFormedChain(p, chain + [block])
  {
    var longer := chain + [block];
    forall i | 1 <= i < |longer|
      ensures longer[i].prevHash == BlockHash(p, longer[i - 1])
      ensures IsLeastProof(p, longer[i].nonce, longer[i].prevHash, longer[i].transactions)
    {
      if i < |chain| {
        assert longer[i] == chain[i] && longer[i - 1] == chain[i - 1];
      }
    }
  }

  // ---------------------------------------------------------------------------
  // Balances

  /** What one transaction does to an address's balance: +value if it is the
      recipient, -value if it is the sender. */
  function Delta(transaction: Transaction, address: string): (delta: real)
    ensures transaction.senderAddress == transaction.recipientAddress ==> delta == 0.0
    ensures address != transaction.senderAddress && address != transaction.recipientAddress ==> delta == 0.0
    ensures address == transaction.recipientAddress && address != transaction.senderAddress ==> delta == transaction.value
    ensures address == transaction.senderAddress && address != transaction.recipientAddress ==> delta == -transaction.value
  {
    (if address == transaction.recipientAddress then transaction.value else 0.0)
    - (if address == transaction.senderAddress then transaction.value else 0.0)
  }

  /** The net effect of a run of transactions on an address. */
  function TransactionsAmount(transactions: seq<Transaction>, address: string): real {
    if transactions == [] then 0.0
    else TransactionsAmount(transactions[..|transactions| - 1], address)
         + Delta(transactions[|transactions| - 1], address)
  }

  /** The balance of an address: the net effect of every sealed transaction. */
  function TotalAmount(chain: seq<Block>, address: string): real {
    if chain == [] then 0.0
    else TotalAmount(chain[..|chain| - 1], address)
         + TransactionsAmount(chain[|chain| - 1].transactions, address)
  }

  /** Sealing one more block changes a balance by that block's net effect. */
  lemma TotalAmountSnoc(chain: seq<Block>, block: Block, address: string)
    ensures TotalAmount(chain + [block], address) == TotalAmount(chain, address) + TransactionsAmount(block.transactions, address)
  {
    assert (chain + [block])[..|chain|] == chain;
  }

  /** The net effect of two runs one after the other is the sum of theirs. */
  lemma {:induction false} TransactionsAmountAppend(xs: seq<Transaction>, ys: seq<Transaction>, address: string)
    ensures TransactionsAmount(xs + ys, address) == TransactionsAmount(xs, address) + TransactionsAmount(ys, address)
    decreases |ys|
  {
    if ys == [] {
      assert xs + ys == xs;
    } else {
      assert (xs + ys)[..|xs + ys| - 1] == xs + ys[..|ys| - 1];
      assert (xs + ys)[|xs + ys| - 1] == ys[|ys| - 1];
      TransactionsAmountAppend(xs, ys[..|ys| - 1], address);
    }
  }

  /** Addresses listed once each. */
  predicate Distinct(addresses: seq<string>) {
    forall i, j :: 0 <= i < j < |addresses| ==> addresses[i] != addresses[j]
  }

  /** Every sender and recipient of every sealed transaction is listed. */
  predicate CoversParticipants(chain: seq<Block>, addresses: seq<string>) {
    forall i, j :: 0 <= i < |chain| && 0 <= j < |chain[i].transactions| ==>
      chain[i].transactions[j].senderAddress in addresses && chain[i].transactions[j].recipientAddress in addresses
  }

  function SumDelta(transaction: Transaction, addresses: seq<string>): real {
    if addresses == [] then 0.0 else Delta(transaction, addresses[0]) + SumDelta(transaction, addresses[1..])
  }

  function SumTransactionsAmount(transactions: seq<Transaction>, addresses: seq<string>): real {
    if addresses == [] then 0.0
    else TransactionsAmount(transactions, addresses[0]) + SumTransactionsAmount(transactions, addresses[1..])
  }

  /** The sum of the balances of the listed addresses. */
  function SumTotalAmount(chain: seq<Block>, addresses: seq<string>): real {
    if addresses == [] then 0.0 else TotalAmount(chain, addresses[0]) + SumTotalAmount(chain, addresses[1..])
  }

  /** Over distinct addresses, a transaction moves +value to its recipient
      and -value from its sender, if they are listed. */
  lemma {:induction false} SumDeltaValue(transaction: Transaction, addresses: seq<string>)
    requires Distinct(addresses)
    ensures SumDelta(transaction, addresses)
         == (if transaction.recipientAddress in addresses then transaction.value else 0.0)
          - (if transaction.senderAddress in addresses then transaction.value else 0.0)
  {
    if addresses != [] {
      var rest := addresses[1..];
      assert Distinct(rest) by {
        forall i, j | 0 <= i < j < |rest| ensures rest[i] != rest[j] {
          assert rest[i] == addresses[i + 1] && rest[j] == addresses[j + 1];
        }
      }
      assert addresses[0] !in rest by {
        forall j | 0 <= j < |rest| ensures rest[j] != addresses[0] {
          assert rest[j] == addresses[j + 1];
        }
      }
      assert forall a :: a in addresses <==> a == addresses[0] || a in rest;
      SumDeltaValue(transaction, rest);
    }
  }

  lemma {:induction false} SumTransactionsAmountSnoc(transactions: seq<Transaction>, t: Transaction,
                                                     addresses: seq<string>)
    ensures SumTransactionsAmount(transactions + [t], addresses)
         == SumTransactionsAmount(transactions, addresses) + SumDelta(t, addresses)
  {
    if addresses != [] {
      assert (transactions + [t])[..|transactions|] == transactions;
      SumTransactionsAmountSnoc(transactions, t, addresses[1..]);
    }
  }

  lemma {:induction false} SumTotalAmountSnoc(chain: seq<Block>, block: Block, addresses: seq<string>)
    ensures SumTotalAmount(chain + [block], addresses)
         == SumTotalAmount(chain, addresses) + SumTransactionsAmount(block.transactions, addresses)
  {
    if addresses != [] {
      TotalAmountSnoc(chain, block, addresses[0]);
      SumTotalAmountSnoc(chain, block, addresses[1..]);
    }
  }

  /** Transactions whose participants are all listed sum to zero over the
      listed addresses. */
  lemma {:induction false} TransactionsConserve(transactions: seq<Transaction>, addresses: seq<string>)
    requires Distinct(addresses)
    requires forall j :: 0 <= j < |transactions| ==>
               transactions[j].senderAddress in addresses && transactions[j].recipientAddress in addresses
    ensures SumTransactionsAmount(transactions, addresses) == 0.0
  {
    if transactions == [] {
      SumTransactionsAmountEmpty(addresses);
    } else {
      var n := |transactions|;
      assert transactions == transactions[..n - 1] + [transactions[n - 1]];
      TransactionsConserve(transactions[..n - 1], addresses);
      SumTransactionsAmountSnoc(transactions[..n - 1], transactions[n - 1], addresses);
      SumDeltaValue(transactions[n - 1], addresses);
    }
  }

  lemma {:induction false} SumTransactionsAmountEmpty(addresses: seq<string>)
    ensures SumTransactionsAmount([], addresses) == 0.0
  {
    if addresses != [] {
      SumTransactionsAmountEmpty(addresses[1..]);
    }
  }

  lemma {:induction false} SumTotalAmountEmpty(addresses: seq<string>)
    ensures SumTotalAmount([], addresses) == 0.0
  {
    if addresses != [] {
      SumTotalAmountEmpty(addresses[1..]);
    }
  }

  /** Balance conservation: over any list of distinct addresses that names
      every participant (the reward sender "GO CHAIN" included), the balances
      sum to zero. Mining rewards are debited from "GO CHAIN". */
  lemma {:induction false} BalancesSumToZero(chain: seq<Block>, addresses: seq<string>)
    requires Distinct(addresses)
    requires CoversParticipants(chain, addresses)
    ensures SumTotalAmount(chain, addresses) == 0.0
  {
    if chain == [] {
      SumTotalAmountEmpty(addresses);
    } else {
      var n := |chain|;
      var init := chain[..n - 1];
      assert chain == init + [chain[n - 1]];
      assert CoversParticipants(init, addresses) by {
        forall i, j | 0 <= i < |init| && 0 <= j < |init[i].transactions|
          ensures init[i].transactions[j].senderAddress in addresses
          ensures init[i].transactions[j].recipientAddress in addresses
        {
          assert init[i] == chain[i];
        }
      }
      BalancesSumToZero(init, addresses);
      SumTotalAmountSnoc(init, chain[n - 1], addresses);
      TransactionsConserve(chain[n - 1].transactions, addresses);
    }
  }

  // ---------------------------------------------------------------------------
  // Requests

  /** `TransactionRequest.Validate`: all five fields present, or rejected. */
  function Validate(request: TransactionRequest): (valid: bool)
    ensures valid <==> (request.senderBlockchainAddress.Some? && request.recipientBlockchainAddress.Some?
                        && request.senderPublicKey.Some? && request.value.Some? && request.signature.Some?)
  {
    !(request.recipientBlockchainAddress.None? || request.senderBlockchainAddress.None?
      || request.senderPublicKey.None? || request.value.None? || request.signature.None?)
  }

  // ---------------------------------------------------------------------------
  // The ledger

  class Blockchain {
    var transactionPool: seq<Transaction>
    var chain: seq<Block>
    const chainAddress: string
    const port: uint16
    /** The library primitives this ledger hashes and verifies with. */
    const crypto: Primitives

    ghost predicate Valid()
      reads this`chain
    {
      |chain| >= 1
    }

    /** The transaction that credits a mining reward to this ledger's address. */
    function RewardTransaction(): Transaction {
      Transaction(MINING_SENDER, chainAddress, MINING_REWARD)
    }

    /** `NewBlockchain`: an empty pool and a chain holding only the genesis
        block, sealed at time `now` with nonce 0 against the hash of the
        zero-valued block. */
    constructor (chainAddress: string, port: uint16, crypto: Primitives, now: int)
      ensures Valid()
      ensures this.chainAddress == chainAddress && this.port == port && this.crypto == crypto
      ensures chain == [GenesisBlock(crypto, now)]
      ensures transactionPool == []
      ensures WellFormedChain(crypto, chain)
    {
      this.chainAddress := chainAddress;
      this.crypto := crypto;
      this.port := port;
      transactionPool := [];
      chain := [];
      new;
      var genesis := CreateNewBlock(0, BlockHash(crypto, ZeroBlock()), now);
    }

    /** `LastBlock`: the most recently sealed block (the Go code indexes an
        empty chain and panics, which a valid ledger never has). */
    function LastBlock(): (last: Block)
      requires Valid()
      reads this`chain
      ensures last in chain && last == chain[|chain| - 1]
    {
      chain[|chain| - 1]
    }

    /** `AddTransaction`: the reward sender is admitted without a signature;
        any other sender only when the signature verifies. The sender's
        balance is not consulted. An admitted transaction goes to the end of
        the pool; a rejected one changes nothing. Key and signature may be nil
        only on the reward path: elsewhere the Go code dereferences them. */
    method AddTransaction(sender: string, recipient: string, value: real,
                          senderPublicKey: Option<PublicKey>, signature: Option<Signature>)
      returns (added: bool)
      requires sender != MINING_SENDER ==> senderPublicKey.Some? && signature.Some?
      modifies this`transactionPool
      ensures old(Valid()) ==> Valid()
      ensures added <==> (sender == MINING_SENDER
                          || VerifyTransactionSignature(crypto, senderPublicKey.value, signature.value,
                                                        Transaction(sender, recipient, value)))
      ensures transactionPool == if added then old(transactionPool) + [Transaction(sender, recipient, value)]
                                 else old(transactionPool)
    {
      var transaction := Transaction(sender, recipient, value);
      if sender == MINING_SENDER {
        transactionPool := transactionPool + [transaction];
        return true;
      }
      if VerifyTransactionSignature(crypto, senderPublicKey.value, signature.value, transaction) {
        transactionPool := transactionPool + [transaction];
        return true;
      }
      return false;
    }

    /** `CopyTransactionPool`: a new slice holding a copy of each pooled
        transaction, in order. */
    method CopyTransactionPool() returns (transactions: seq<Transaction>)
      ensures transactions == transactionPool
    {
      transactions := [];
      for i := 0 to |transactionPool|
        invariant transactions == transactionPool[..i]
      {
        var t := transactionPool[i];
        transactions := transactions + [Transaction(t.senderAddress, t.recipientAddress, t.value)];
      }
    }

    /** `CreateNewBlock`: seals the whole pool into a block with the given
        nonce and previous hash, stamped `now`, appends it and empties the
        pool. Earlier blocks are untouched. */
    method CreateNewBlock(nonce: int, prevHash: Digest32, now: int) returns (block: Block)
      modifies this`chain, this`transactionPool
      ensures block == Block(now, nonce, prevHash, old(transactionPool))
      ensures chain == old(chain) + [block]
      ensures transactionPool == []
      ensures Valid()
    {
      block := Block(now, nonce, prevHash, transactionPool);
      chain := chain + [block];
      transactionPool := [];
    }

    /** `ProofOfWork`: counts up from nonce 0 until the trial block over a copy
        of the pool and the last block's hash passes `ValidProof`, and returns
        the first nonce that does. The search is unbounded in Go; here it is
        run only where some nonce passes. */
    method ProofOfWork() returns (nonce: int)
      requires Valid()
      requires exists n: nat :: ValidProof(crypto, n, BlockHash(crypto, LastBlock()), transactionPool, MINING_ZEROS)
      ensures IsLeastProof(crypto, nonce, BlockHash(crypto, LastBlock()), transactionPool)
    {
      var transactions := CopyTransactionPool();
      var previousHash := BlockHash(crypto, LastBlock());
      ghost var bound: nat :| ValidProof(crypto, bound, previousHash, transactions, MINING_ZEROS);
      nonce := 0;
      while !ValidProof(crypto, nonce, previousHash, transactions, MINING_ZEROS)
        invariant 0 <= nonce <= bound
        invariant forall k :: 0 <= k < nonce ==> !ValidProof(crypto, k, previousHash, transactions, MINING_ZEROS)
        decreases bound - nonce
      {
        nonce := nonce + 1;
      }
    }

    /** `Mining` at time `now`: admits the reward transaction, finds the least
        proof for the pool, seals the pool against the hash of the last block
        and empties it. The chain grows by exactly that block, so a
        well-formed chain stays well formed. */
    method Mining(now: int) returns (mined: bool)
      requires Valid()
      requires exists n: nat :: ValidProof(crypto, n, BlockHash(crypto, LastBlock()),
                                           transactionPool + [RewardTransaction()], MINING_ZEROS)
      modifies this`chain, this`transactionPool
      ensures Valid() && mined
      ensures transactionPool == []
      ensures |chain| == |old(chain)| + 1 && chain[..|old(chain)|] == old(chain)
      ensures LastBlock().timestamp == now
      ensures LastBlock().prevHash == BlockHash(crypto, old(LastBlock()))
      ensures LastBlock().transactions == old(transactionPool) + [RewardTransaction()]
      ensures IsLeastProof(crypto, LastBlock().nonce, LastBlock().prevHash, LastBlock().transactions)
      ensures WellFormedChain(crypto, old(chain)) ==> WellFormedChain(crypto, chain)
    {
      ghost var before := chain;
      ghost var pool := transactionPool + [RewardTransaction()];
      ghost var lastHash := BlockHash(crypto, LastBlock());
      ghost var n: nat :| ValidProof(crypto, n, lastHash, pool, MINING_ZEROS);
      var rewarded := AddTransaction(MINING_SENDER, chainAddress, MINING_REWARD, None, None);
      assert transactionPool == pool && chain == before;
      assert ValidProof(crypto, n, BlockHash(crypto, LastBlock()), transactionPool, MINING_ZEROS);
      var nonce := ProofOfWork();
      assert IsLeastProof(crypto, nonce, lastHash, pool);
      var previousHash := BlockHash(crypto, LastBlock());
      var block := CreateNewBlock(nonce, previousHash, now);
      assert block == Block(now, nonce, lastHash, pool);
      assert chain == before + [block];
      assert chain[..|before|] == before;
      assert LastBlock() == block;
      if WellFormedChain(crypto, before) {
        SealKeepsWellFormed(crypto, before, block);
      }
      return true;
    }

    /** `CalculateTotalAmount`: walks every transaction of every sealed block,
        adding the value where the address receives and subtracting it where
        the address sends. Pooled transactions do not count. */
    method CalculateTotalAmount(address: string) returns (totalAmount: real)
      ensures totalAmount == TotalAmount(chain, address)
    {
      totalAmount := 0.0;
      for i := 0 to |chain|
        invariant totalAmount == TotalAmount(chain[..i], address)
      {
        var block := chain[i];
        for j := 0 to |block.transactions|
          invariant totalAmount == TotalAmount(chain[..i], address) + TransactionsAmount(block.transactions[..j], address)
        {
          var transaction := block.transactions[j];
          var value := transaction.value;
          if address == transaction.recipientAddress {
            totalAmount := totalAmount + value;
          }
          if address == transaction.senderAddress {
            totalAmount := totalAmount - value;
          }
          assert block.transactions[..j + 1][..j] == block.transactions[..j];
        }
        assert block.transactions[..|block.transactions|] == block.transactions;
        assert chain[..i + 1] == chain[..i] + [block];
        TotalAmountSnoc(chain[..i], block, address);
      }
      assert chain[..|chain|] == chain;
    }
  }
}
