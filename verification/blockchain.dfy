/** Blocks and the chain engine: genesis, tip, appending, mining and the longest-chain
    rule. The chain is a value (`seq<Block>`); an operation that mutates it in the node
    returns the new chain here. The u64/u128 fields are unbounded naturals. */
module Blockchain {
  import opened Strings
  import opened Cryptography

  datatype Block = Block(index: nat, timestamp: nat, prevHash: string, hash: string, data: string, nonce: nat)

  type Chain = seq<Block>

  /** The outcome of an operation that may replace the chain: the chain afterwards and
      the boolean the node returns. */
  datatype Update = Update(chain: Chain, changed: bool)

  const GENESIS_PREV_HASH: string := "0"
  const GENESIS_DATA: string := "GENESIS"

  /** The block's stored hash is the hash of its own fields. */
  predicate Sealed(sha: Sha256, b: Block) {
    b.hash == CalculateHash(sha, b.index, b.timestamp, b.prevHash, b.data, b.nonce)
  }

  /** Every block after the first names its predecessor's hash. */
  predicate Linked(c: Chain) {
    forall i :: 0 < i < |c| ==> c[i].prevHash == c[i - 1].hash
  }

  /** Every block after the first passes proof-of-work. */
  predicate PowValid(c: Chain) {
    forall i :: 0 < i < |c| ==> VerifyPow(c[i].hash)
  }

  /** Indices count up by one along the chain. */
  predicate Consecutive(c: Chain) {
    forall i :: 0 < i < |c| ==> c[i].index == c[i - 1].index + 1
  }

  predicate AllSealed(sha: Sha256, c: Chain) {
    forall i :: 0 <= i < |c| ==> Sealed(sha, c[i])
  }

  /** The chain invariant: rooted at genesis, hash-linked, every later block proven and
      every block sealed, with consecutive indices. */
  predicate ValidChain(sha: Sha256, c: Chain) {
    && |c| > 0
    && c[0] == Genesis(sha)
    && Linked(c)
    && PowValid(c)
    && Consecutive(c)
    && AllSealed(sha, c)
  }

  /** `Block::new`: seals the given fields. */
  function NewBlock(sha: Sha256, index: nat, timestamp: nat, prevHash: string, data: string, nonce: nat): (b: Block)
    ensures Sealed(sha, b)
    ensures b.index == index && b.timestamp == timestamp && b.prevHash == prevHash
    ensures b.data == data && b.nonce == nonce
    ensures |b.hash| == 64 && IsLowerHex(b.hash)
  {
    Block(index, timestamp, prevHash, CalculateHash(sha, index, timestamp, prevHash, data, nonce), data, nonce)
  }

  /** `Block::new_dummy`: the genesis block. */
  function Genesis(sha: Sha256): (b: Block)
    ensures b.index == 0 && b.timestamp == 0 && b.nonce == 0
    ensures b.prevHash == "0" && b.data == "GENESIS"
    ensures Sealed(sha, b)
  {
    NewBlock(sha, 0, 0, GENESIS_PREV_HASH, GENESIS_DATA, 0)
  }

  /** `Blockchain::new`: the genesis block alone, which is a valid chain. */
  function NewChain(sha: Sha256): (c: Chain)
    ensures |c| == 1 && c[0] == Genesis(sha)
    ensures ValidChain(sha, c)
  {
    [Genesis(sha)]
  }

  /** `tip`: the last block. The node panics on an empty chain; here that is the
      precondition. */
  function Tip(c: Chain): (b: Block)
    requires |c| > 0
    ensures b in c
    ensures c == c[..|c| - 1] + [b]
  {
    c[|c| - 1]
  }

  /** `add_block`: appends the candidate exactly when it names the tip's hash and its
      stored hash passes proof-of-work; otherwise the chain is unchanged. The stored
      hash is not recomputed and the index is not looked at. */
  function AddBlock(c: Chain, b: Block): (r: Update)
    requires |c| > 0
    ensures r.changed <==> b.prevHash == Tip(c).hash && VerifyPow(b.hash)
    ensures r.changed ==> r.chain == c + [b]
    ensures !r.changed ==> r.chain == c
  {
    if b.prevHash != Tip(c).hash then Update(c, false)
    else if !VerifyPow(b.hash) then Update(c, false)
    else Update(c + [b], true)
  }

  /** Appending keeps the two things `add_block` checks: links and proof-of-work. */
  lemma AddBlockKeepsLinksAndPow(c: Chain, b: Block)
    requires |c| > 0 && Linked(c) && PowValid(c)
    ensures Linked(AddBlock(c, b).chain) && PowValid(AddBlock(c, b).chain)
    ensures AddBlock(c, b).chain[..|c|] == c
  {
  }

  /** `add_block` trusts the stored hash: a candidate whose "hash" is the bare string
      "0000", which no SHA-256 rendering can be, is still appended. */
  lemma AddBlockAcceptsUnsealed(sha: Sha256, c: Chain)
    requires |c| > 0
    ensures var forged := Block(0, 0, Tip(c).hash, "0000", "forged", 0);
            !Sealed(sha, forged) && AddBlock(c, forged) == Update(c + [forged], true)
  {
    var forged := Block(0, 0, Tip(c).hash, "0000", "forged", 0);
    assert |CalculateHash(sha, 0, 0, Tip(c).hash, "forged", 0)| == 64;
    assert VerifyPow("0000") by { assert "0000"[..4] == POW_PREFIX; }
  }

  /** What the mining loop promises of the block it returns: it extends the tip, carries
      the clock value and payload, is sealed and passes proof-of-work. */
  predicate MinedFor(sha: Sha256, c: Chain, data: string, now: nat, b: Block)
    requires |c| > 0
  {
    && b.index == Tip(c).index + 1
    && b.timestamp == now
    && b.prevHash == Tip(c).hash
    && b.data == data
    && Sealed(sha, b)
    && VerifyPow(b.hash)
  }

  /** Nonce `n` makes the tip's successor, with this payload and clock value, pass
      proof-of-work. */
  predicate NoncePasses(sha: Sha256, c: Chain, data: string, now: nat, n: nat)
    requires |c| > 0
  {
    VerifyPow(CalculateHash(sha, Tip(c).index + 1, now, Tip(c).hash, data, n))
  }

  /** Some nonce passes. */
  ghost predicate NonceExists(sha: Sha256, c: Chain, data: string, now: nat)
    requires |c| > 0
  {
    exists n: nat :: NoncePasses(sha, c, data, now, n)
  }

  /** `mine_block`: tries nonces 0, 1, 2, ... and returns the first block that passes
      proof-of-work. The chain is a value and is left as it was; the clock reading is
      the parameter `now`. The loop runs forever when no nonce passes, so the model
      requires that one does. */
  method MineBlock(sha: Sha256, c: Chain, data: string, now: nat) returns (b: Block)
    requires |c| > 0
    requires NonceExists(sha, c, data, now)
    ensures MinedFor(sha, c, data, now, b)
    ensures forall k: nat :: k < b.nonce ==> !NoncePasses(sha, c, data, now, k)
  {
    var tip := Tip(c);
    var index := tip.index + 1;
    var prevHash := tip.hash;
    ghost var w: nat :| NoncePasses(sha, c, data, now, w);
    var nonce: nat := 0;
    while true
      invariant nonce <= w
      invariant forall k: nat :: k < nonce ==> !NoncePasses(sha, c, data, now, k)
      decreases w - nonce
    {
      var hash := CalculateHash(sha, index, now, prevHash, data, nonce);
      if VerifyPow(hash) {
        return Block(index, now, prevHash, hash, data, nonce);
      }
      nonce := nonce + 1;
    }
  }

  /** Mining is deterministic once the clock is fixed: two blocks that both satisfy the
      mining contract, least nonce included, are the same block. */
  lemma MiningDeterministic(sha: Sha256, c: Chain, data: string, now: nat, b1: Block, b2: Block)
    requires |c| > 0
    requires MinedFor(sha, c, data, now, b1) && forall k: nat :: k < b1.nonce ==> !NoncePasses(sha, c, data, now, k)
    requires MinedFor(sha, c, data, now, b2) && forall k: nat :: k < b2.nonce ==> !NoncePasses(sha, c, data, now, k)
    ensures b1 == b2
  {
    assert NoncePasses(sha, c, data, now, b1.nonce);
    assert NoncePasses(sha, c, data, now, b2.nonce);
  }

  /** A freshly mined block is accepted by `add_block` on the chain it was mined from,
      and the chain grows by exactly that block. */
  lemma MineThenAdd(sha: Sha256, c: Chain, data: string, now: nat, b: Block)
    requires |c| > 0 && MinedFor(sha, c, data, now, b)
    ensures AddBlock(c, b) == Update(c + [b], true)
    ensures |AddBlock(c, b).chain| == |c| + 1
  {
  }

  /** Appending a mined block keeps the whole chain invariant, including the parts
      `add_block` does not itself check. */
  lemma MineThenAddKeepsValid(sha: Sha256, c: Chain, data: string, now: nat, b: Block)
    requires ValidChain(sha, c) && MinedFor(sha, c, data, now, b)
    ensures ValidChain(sha, AddBlock(c, b).chain)
  {
    var c' := c + [b];
    assert AddBlock(c, b).chain == c';
    assert c'[|c|] == b && c'[|c| - 1] == Tip(c);
    forall i | 0 <= i < |c'| ensures Sealed(sha, c'[i]) {
      if i < |c| { assert c'[i] == c[i]; }
    }
    MineThenAdd(sha, c, data, now, b);
    AddBlockKeepsLinksAndPow(c, b);
    forall i | 0 < i < |c'| ensures c'[i].index == c'[i - 1].index + 1 {
      if i < |c| { assert c'[i] == c[i] && c'[i - 1] == c[i - 1]; }
    }
  }

  /** `sync`: adopts the other chain wholesale exactly when it is strictly longer. */
  function Sync(c: Chain, other: Chain): (r: Update)
    ensures r.changed <==> |other| > |c|
    ensures r.chain == (if r.changed then other else c)
  {
    if |other| > |c| then Update(other, true) else Update(c, false)
  }

  /** The longest-chain rule: the result is one of the two chains, is at least as long as
      both, and on a tie the current chain stays. */
  lemma SyncIsLongestChain(c: Chain, other: Chain)
    ensures Sync(c, other).chain == c || Sync(c, other).chain == other
    ensures |Sync(c, other).chain| >= |c| && |Sync(c, other).chain| >= |other|
    ensures |c| == |other| ==> Sync(c, other) == Update(c, false)
  {
  }

  /** `sync` does not validate: a valid chain is replaced by a longer one whose second
      block does not link to its first. */
  lemma SyncAdoptsBrokenChain(sha: Sha256)
    ensures var other := [Genesis(sha), Block(1, 0, "not-a-hash", "0000", "x", 0)];
            ValidChain(sha, NewChain(sha))
            && !Linked(other)
            && Sync(NewChain(sha), other) == Update(other, true)
  {
    var other := [Genesis(sha), Block(1, 0, "not-a-hash", "0000", "x", 0)];
    assert |Genesis(sha).hash| == 64;
    assert other[1].prevHash != other[0].hash;
  }
}
