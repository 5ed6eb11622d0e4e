/** How the wallet side and the ledger fit together: the wallet signs the
    very bytes the ledger verifies, and the run main.go performs (three
    wallets, one signed transfer, one round of mining, three balances). */
module Protocol {
  import opened Options
  import opened Hex
  import opened Crypto
  import opened Utils
  import Wallet
  import Chain

  /** ECDSA correctness for one signature, assumed of the primitives rather
      than proved: the signature made with `key` over `digest` verifies
      against `key.publicKey`. Real ECDSA gives this for a key pair drawn by
      `ecdsa.GenerateKey`, whose public key is D times the base point; it is
      assumed only for such signatures, never for every key record. */
  predicate SignVerifies(p: Primitives, entropy: nat, key: PrivateKey, digest: seq<byte>) {
    var (r, s) := p.ecdsaSign(entropy, key, digest);
    p.ecdsaVerify(key.publicKey, digest, r, s)
  }

  /** The digest a wallet signs for a transfer of `value` to `recipient`. */
  function TransferDigest(p: Primitives, wallet: Wallet.Wallet, recipient: string, value: real): Digest32 {
    Wallet.SigningDigest(p, Wallet.Transaction(wallet.privateKey, wallet.privateKey.publicKey,
                                               wallet.blockchainAddress, recipient, value))
  }

  /** ECDSA correctness for the one signature a wallet makes over a transfer
      of `value` to `recipient`. */
  predicate TransferSignatureVerifies(p: Primitives, wallet: Wallet.Wallet, recipient: string, value: real,
                                      entropy: nat) {
    SignVerifies(p, entropy, wallet.privateKey, TransferDigest(p, wallet, recipient, value))
  }

  /** Both components of a signature are below 2^256, as they are on P-256
      (they are reduced modulo the order of the curve). */
  predicate SignFits(p: Primitives, entropy: nat, key: PrivateKey, digest: seq<byte>) {
    var (r, s) := p.ecdsaSign(entropy, key, digest);
    r < Pow16(COMPONENT_DIGITS) && s < Pow16(COMPONENT_DIGITS)
  }

  /** The wallet serialises a transaction to the same JSON as the ledger does
      for the transaction with the same three fields, whatever keys the
      wallet's transaction carries. */
  lemma TransactionJsonAgrees(t: Wallet.Transaction)
    ensures Wallet.TransactionJson(t)
         == Chain.TransactionJson(Chain.Transaction(t.senderAddress, t.recipientAddress, t.value))
  {
  }

  /** A transfer signed with a wallet's key verifies on the ledger against
      that wallet's public key. */
  lemma SignedTransactionVerifies(p: Primitives, wallet: Wallet.Wallet, recipient: string, value: real,
                                  entropy: nat)
    requires TransferSignatureVerifies(p, wallet, recipient, value, entropy)
    ensures var t := Wallet.Transaction(wallet.privateKey, wallet.privateKey.publicKey,
                                        wallet.blockchainAddress, recipient, value);
            Chain.VerifyTransactionSignature(p, wallet.privateKey.publicKey, Wallet.GenerateSignature(p, t, entropy),
                                             Chain.Transaction(wallet.blockchainAddress, recipient, value))
  {
    var t := Wallet.Transaction(wallet.privateKey, wallet.privateKey.publicKey,
                                wallet.blockchainAddress, recipient, value);
    TransactionJsonAgrees(t);
  }

  /** The signature still verifies after the trip through `Signature.String`
      and `SignatureFromString` that a wallet server and a ledger server make
      between them. */
  lemma TransportedSignatureVerifies(p: Primitives, wallet: Wallet.Wallet, recipient: string, value: real,
                                     entropy: nat)
    requires TransferSignatureVerifies(p, wallet, recipient, value, entropy)
    requires SignFits(p, entropy, wallet.privateKey, TransferDigest(p, wallet, recipient, value))
    ensures var t := Wallet.Transaction(wallet.privateKey, wallet.privateKey.publicKey,
                                        wallet.blockchainAddress, recipient, value);
            var signature := Wallet.GenerateSignature(p, t, entropy);
            Chain.VerifyTransactionSignature(p, wallet.privateKey.publicKey,
                                             SignatureFromString(SignatureString(signature)),
                                             Chain.Transaction(wallet.blockchainAddress, recipient, value))
  {
    var t := Wallet.Transaction(wallet.privateKey, wallet.privateKey.publicKey,
                                wallet.blockchainAddress, recipient, value);
    SignedTransactionVerifies(p, wallet, recipient, value, entropy);
    SignatureRoundTrip(Wallet.GenerateSignature(p, t, entropy));
  }

  /** The run of main.go: wallets for a miner, A and B; A signs a transfer of
      1.0 to B; a ledger rewarding the miner admits it and mines once. Then
      A's balance is -1.0, B's is 1.0 and the miner's is the reward. The
      addresses are assumed distinct (hash collisions aside), a nonce is
      assumed to pass the proof of work, and A's one signature is assumed to
      verify against A's public key. */
  method Demonstration(p: Primitives, minerKey: PrivateKey, aKey: PrivateKey, bKey: PrivateKey,
                       entropy: nat, started: int, minedAt: int)
    returns (added: bool, amountA: real, amountB: real, amountMiner: real)
    requires TransferSignatureVerifies(p, Wallet.Wallet(aKey, aKey.publicKey, Wallet.Address(p, aKey.publicKey)),
                                       Wallet.Address(p, bKey.publicKey), 1.0, entropy)
    requires var a, b, m := Wallet.Address(p, aKey.publicKey), Wallet.Address(p, bKey.publicKey),
                            Wallet.Address(p, minerKey.publicKey);
             a != b && a != m && b != m && Chain.MINING_SENDER !in [a, b, m]
    requires exists n: nat :: Chain.ValidProof(p, n, Chain.BlockHash(p, Chain.GenesisBlock(p, started)),
               [Chain.Transaction(Wallet.Address(p, aKey.publicKey), Wallet.Address(p, bKey.publicKey), 1.0),
                Chain.Transaction(Chain.MINING_SENDER, Wallet.Address(p, minerKey.publicKey), Chain.MINING_REWARD)],
               Chain.MINING_ZEROS)
    ensures added
    ensures amountA == -1.0 && amountB == 1.0 && amountMiner == Chain.MINING_REWARD
  {
    var minerWallet := Wallet.NewWallet(p, minerKey);
    var aWallet := Wallet.NewWallet(p, aKey);
    var bWallet := Wallet.NewWallet(p, bKey);
    assert aWallet == Wallet.Wallet(aKey, aKey.publicKey, Wallet.Address(p, aKey.publicKey));
    assert TransferSignatureVerifies(p, aWallet, bWallet.blockchainAddress, 1.0, entropy);
    added, amountA, amountB, amountMiner :=
      TransferAndMine(p, minerWallet.blockchainAddress, aWallet, bWallet.blockchainAddress, 1.0,
                      entropy, started, minedAt);
  }

  /** A fresh ledger rewarding `minerAddress` admits a transfer the sender's
      wallet signed, mines once, and reports the three balances: the sender
      has paid `value`, the recipient has received it, and the miner holds
      the reward. */
  method TransferAndMine(p: Primitives, minerAddress: string, sender: Wallet.Wallet, recipientAddress: string,
                         value: real, entropy: nat, started: int, minedAt: int)
    returns (added: bool, amountSender: real, amountRecipient: real, amountMiner: real)
    requires TransferSignatureVerifies(p, sender, recipientAddress, value, entropy)
    requires sender.publicKey == sender.privateKey.publicKey
    requires var a, b, m := sender.blockchainAddress, recipientAddress, minerAddress;
             a != b && a != m && b != m && Chain.MINING_SENDER !in [a, b, m]
    requires exists n: nat :: Chain.ValidProof(p, n, Chain.BlockHash(p, Chain.GenesisBlock(p, started)),
               [Chain.Transaction(sender.blockchainAddress, recipientAddress, value),
                Chain.Transaction(Chain.MINING_SENDER, minerAddress, Chain.MINING_REWARD)],
               Chain.MINING_ZEROS)
    ensures added
    ensures amountSender == -value && amountRecipient == value && amountMiner == Chain.MINING_REWARD
  {
    var blockchain := new Chain.Blockchain(minerAddress, 5000, p, started);
    added := SubmitSignedTransfer(blockchain, sender, recipientAddress, value, entropy);
    assert blockchain.chain == [Chain.GenesisBlock(p, started)];
    assert blockchain.transactionPool == [Chain.Transaction(sender.blockchainAddress, recipientAddress, value)];
    assert blockchain.RewardTransaction() == Chain.Transaction(Chain.MINING_SENDER, minerAddress, Chain.MINING_REWARD);
    amountSender, amountRecipient, amountMiner :=
      MineAndTally(blockchain, sender.blockchainAddress, recipientAddress, value, minedAt);
  }

  /** A ledger whose chain is an empty genesis block and whose pool holds one
      transfer mines once; the sender has then paid `value`, the recipient
      has received it and the ledger's own address holds the reward. */
  method MineAndTally(blockchain: Chain.Blockchain, senderAddress: string, recipientAddress: string,
                      value: real, minedAt: int)
    returns (amountSender: real, amountRecipient: real, amountMiner: real)
    requires |blockchain.chain| == 1 && blockchain.chain[0].transactions == []
    requires blockchain.transactionPool == [Chain.Transaction(senderAddress, recipientAddress, value)]
    requires var a, b, m := senderAddress, recipientAddress, blockchain.chainAddress;
             a != b && a != m && b != m && Chain.MINING_SENDER !in [a, b, m]
    requires exists n: nat :: Chain.ValidProof(blockchain.crypto, n, Chain.BlockHash(blockchain.crypto, blockchain.chain[0]),
               [Chain.Transaction(senderAddress, recipientAddress, value), blockchain.RewardTransaction()],
               Chain.MINING_ZEROS)
    modifies blockchain
    ensures amountSender == -value && amountRecipient == value && amountMiner == Chain.MINING_REWARD
  {
    var genesis := blockchain.chain[0];
    var reward := blockchain.RewardTransaction();
    var sealed := [Chain.Transaction(senderAddress, recipientAddress, value), reward];
    ghost var n: nat :| Chain.ValidProof(blockchain.crypto, n, Chain.BlockHash(blockchain.crypto, genesis), sealed,
                                         Chain.MINING_ZEROS);
    assert blockchain.transactionPool + [reward] == sealed;
    assert Chain.ValidProof(blockchain.crypto, n, Chain.BlockHash(blockchain.crypto, blockchain.LastBlock()),
                            blockchain.transactionPool + [blockchain.RewardTransaction()], Chain.MINING_ZEROS);
    var mined := blockchain.Mining(minedAt);
    ghost var block := blockchain.chain[1];
    assert blockchain.chain == [genesis, block];
    BalancesAfterOneBlock(genesis, block, senderAddress);
    BalancesAfterOneBlock(genesis, block, recipientAddress);
    BalancesAfterOneBlock(genesis, block, blockchain.chainAddress);

    amountSender := blockchain.CalculateTotalAmount(senderAddress);
    amountRecipient := blockchain.CalculateTotalAmount(recipientAddress);
    amountMiner := blockchain.CalculateTotalAmount(blockchain.chainAddress);
  }

  /** The wallet side of a transfer in main.go: the sender's wallet signs the
      transfer and the ledger is handed the sender's public key and the
      signature. A signature made with the wallet's key is always admitted. */
  method SubmitSignedTransfer(blockchain: Chain.Blockchain, wallet: Wallet.Wallet, recipient: string,
                              value: real, entropy: nat)
    returns (added: bool)
    requires TransferSignatureVerifies(blockchain.crypto, wallet, recipient, value, entropy)
    requires wallet.publicKey == wallet.privateKey.publicKey
    modifies blockchain`transactionPool
    ensures added
    ensures blockchain.transactionPool
         == old(blockchain.transactionPool) + [Chain.Transaction(wallet.blockchainAddress, recipient, value)]
  {
    var p := blockchain.crypto;
    var transaction := Wallet.Transaction(wallet.privateKey, wallet.publicKey, wallet.blockchainAddress,
                                          recipient, value);
    var signature := Wallet.GenerateSignature(p, transaction, entropy);
    SignedTransactionVerifies(p, wallet, recipient, value, entropy);
    added := blockchain.AddTransaction(wallet.blockchainAddress, recipient, value,
                                       Some(wallet.publicKey), Some(signature));
  }

  /** The balances of a chain of an empty genesis block and one block of two
      transactions. */
  lemma BalancesAfterOneBlock(genesis: Chain.Block, block: Chain.Block, address: string)
    requires genesis.transactions == [] && |block.transactions| == 2
    ensures Chain.TotalAmount([genesis, block], address)
         == Chain.Delta(block.transactions[0], address) + Chain.Delta(block.transactions[1], address)
  {
    assert [genesis, block] == [] + [genesis] + [block];
    Chain.TotalAmountSnoc([], genesis, address);
    Chain.TotalAmountSnoc([genesis], block, address);
    var ts := block.transactions;
    assert ts == [] + [ts[0]] + [ts[1]];
    assert ts[..1] == [] + [ts[0]];
  }

  /** Mining a fresh ledger with an empty pool seals exactly one block
      holding only the reward transaction, linked to the genesis block. */
  method MineFreshLedger(p: Primitives, chainAddress: string, started: int, minedAt: int)
    returns (blocks: nat, sealed: seq<Chain.Transaction>, linked: bool)
    requires exists n: nat :: Chain.ValidProof(p, n, Chain.BlockHash(p, Chain.GenesisBlock(p, started)),
               [Chain.Transaction(Chain.MINING_SENDER, chainAddress, Chain.MINING_REWARD)], Chain.MINING_ZEROS)
    ensures blocks == 2
    ensures sealed == [Chain.Transaction(Chain.MINING_SENDER, chainAddress, Chain.MINING_REWARD)]
    ensures linked
  {
    var blockchain := new Chain.Blockchain(chainAddress, 5000, p, started);
    var reward := blockchain.RewardTransaction();
    ghost var n: nat :| Chain.ValidProof(p, n, Chain.BlockHash(p, Chain.GenesisBlock(p, started)), [reward],
                                         Chain.MINING_ZEROS);
    assert blockchain.transactionPool + [reward] == [reward];
    assert Chain.ValidProof(p, n, Chain.BlockHash(p, blockchain.LastBlock()),
                            blockchain.transactionPool + [blockchain.RewardTransaction()], Chain.MINING_ZEROS);
    var mined := blockchain.Mining(minedAt);
    blocks := |blockchain.chain|;
    sealed := blockchain.chain[1].transactions;
    linked := blockchain.chain[1].prevHash == Chain.BlockHash(p, blockchain.chain[0])
              && Chain.WellFormedChain(p, blockchain.chain);
  }
}
