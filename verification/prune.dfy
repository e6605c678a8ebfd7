/** `prune_chain`: keeps only the most recent blocks. */
module Prune {
  import opened Cryptography
  import opened Blockchain

  /** Keeps the last `retainCount` blocks, in order; a chain no longer than that is
      left alone. */
  function PruneChain(c: Chain, retainCount: nat): (r: Chain)
    ensures |r| == (if |c| <= retainCount then |c| else retainCount)
    ensures r == c[|c| - |r|..]
  {
    if |c| > retainCount then c[|c| - retainCount..] else c
  }

  /** Pruning twice with the same count is pruning once. */
  lemma PruneIdempotent(c: Chain, retainCount: nat)
    ensures PruneChain(PruneChain(c, retainCount), retainCount) == PruneChain(c, retainCount)
  {
  }

  /** A positive count keeps a non-empty chain non-empty, so its tip stays defined; a
      count of zero empties every chain, after which `tip` would panic. */
  lemma PruneEmptiness(c: Chain, retainCount: nat)
    ensures retainCount >= 1 && |c| > 0 ==> |PruneChain(c, retainCount)| > 0
    ensures retainCount == 0 ==> PruneChain(c, 0) == []
  {
  }

  /** The kept suffix keeps the links, proofs and index steps between its own blocks. */
  lemma PruneKeepsInnerLinks(c: Chain, retainCount: nat)
    requires Linked(c) && PowValid(c) && Consecutive(c)
    ensures var r := PruneChain(c, retainCount);
            Linked(r) && PowValid(r) && Consecutive(r)
  {
    var r := PruneChain(c, retainCount);
    var d := |c| - |r|;
    forall i | 0 < i < |r|
      ensures r[i].prevHash == r[i - 1].hash && VerifyPow(r[i].hash) && r[i].index == r[i - 1].index + 1
    {
      assert r[i] == c[d + i] && r[i - 1] == c[d + i - 1];
    }
  }

  /** In a chain rooted at index 0 with consecutive indices, each block's index is its
      position. */
  lemma {:induction false} IndexIsPosition(c: Chain, i: nat)
    requires |c| > 0 && c[0].index == 0 && Consecutive(c)
    requires i < |c|
    ensures c[i].index == i
    decreases i
  {
    if i > 0 {
      IndexIsPosition(c, i - 1);
    }
  }

  /** Pruning a valid chain that is longer than the count leaves a chain that no longer
      starts at genesis, so it is no longer valid from the root. */
  lemma PruneLosesGenesis(sha: Sha256, c: Chain, retainCount: nat)
    requires ValidChain(sha, c) && |c| > retainCount >= 1
    ensures PruneChain(c, retainCount)[0] != Genesis(sha)
    ensures !ValidChain(sha, PruneChain(c, retainCount))
  {
    var r := PruneChain(c, retainCount);
    IndexIsPosition(c, |c| - retainCount);
    assert r[0] == c[|c| - retainCount];
  }

  /** After a prune the first kept block names a hash that no kept block has. */
  lemma PruneLeavesDanglingLink()
    ensures var c := [Block(0, 0, "0", "h0", "GENESIS", 0),
                      Block(1, 5, "h0", "0000a", "x", 7),
                      Block(2, 9, "0000a", "0000b", "y", 3)];
            var r := PruneChain(c, 2);
            && Linked(c)
            && r == c[1..]
            && forall j :: 0 <= j < |r| ==> r[j].hash != r[0].prevHash
  {
    var c := [Block(0, 0, "0", "h0", "GENESIS", 0),
              Block(1, 5, "h0", "0000a", "x", 7),
              Block(2, 9, "0000a", "0000b", "y", 3)];
    var r := PruneChain(c, 2);
    assert r == [c[1], c[2]];
    assert "0000a" != "h0" && "0000b" != "h0";
  }
}
