/** The request handlers' own logic, without the HTTP framework: the mine handler's
    validate, mine, broadcast and append sequence, block lookup, the prune endpoint, and
    the status and summary values. Each handler holds the chain lock for its whole
    body, so each is one step on the chain value here. */
module Routes {
  import opened Wrappers
  import opened Strings
  import opened Cryptography
  import opened Blockchain
  import Prune
  import Utils
  import Networking

  /** The number of blocks the prune endpoint keeps. */
  const PRUNE_RETAIN: nat := 100

  /** The mine handler's own payload test: blank after trimming, or over 1024 bytes. */
  predicate PayloadRejected(data: string) {
    Trim(data) == [] || ByteLen(data) > 1024
  }

  /** The handler's test is exactly the negation of `valid_data_payload`. */
  lemma PayloadRejectedIsInvalid(data: string)
    ensures PayloadRejected(data) <==> !Utils.ValidDataPayload(data)
  {
    TrimEmptyIffBlank(data);
  }

  datatype MineReply = InvalidPayload | Mined(added: bool, hash: string)

  /** The mine handler: an invalid payload gets the error reply and the chain is left
      alone; the check comes before the chain is locked, so this holds on an empty chain
      too. Otherwise a block is mined on the current tip with the least passing nonce,
      broadcast to every known peer, and appended. Under the one lock the append always
      succeeds, and the reply reports the new tip's hash. */
  method MineHandler(sha: Sha256, c: Chain, peers: set<string>, data: string, now: nat)
    returns (reply: MineReply, c': Chain, sent: set<string>)
    requires Utils.ValidDataPayload(data) ==> |c| > 0 && NonceExists(sha, c, data, now)
    ensures reply.InvalidPayload? <==> !Utils.ValidDataPayload(data)
    ensures reply.InvalidPayload? ==> c' == c && sent == {}
    ensures reply.Mined? ==> && reply.added
                             && |c'| == |c| + 1 && c'[..|c|] == c
                             && Tip(c').hash == reply.hash
                             && MinedFor(sha, c, data, now, Tip(c'))
                             && (forall k: nat :: k < Tip(c').nonce ==> !NoncePasses(sha, c, data, now, k))
                             && sent == Networking.BlockTargets(peers)
    ensures ValidChain(sha, c) ==> ValidChain(sha, c')
  {
    PayloadRejectedIsInvalid(data);
    if PayloadRejected(data) {
      return InvalidPayload, c, {};
    }
    var b := MineBlock(sha, c, data, now);
    sent := Networking.BlockTargets(peers);
    MineThenAdd(sha, c, data, now, b);
    if ValidChain(sha, c) {
      MineThenAddKeepsValid(sha, c, data, now, b);
    }
    var u := AddBlock(c, b);
    assert u.chain == c + [b];
    assert (c + [b])[..|c|] == c;
    reply := Mined(u.changed, b.hash);
    c' := u.chain;
  }

  /** On an empty chain, where `tip` would panic, a blank payload still gets the error
      reply: the payload is checked before the chain is touched. */
  method MineRejectsOnEmptyChain(sha: Sha256) returns (reply: MineReply, c': Chain)
    ensures reply.InvalidPayload? && c' == []
  {
    TrimEmptyIffBlank("   ");
    var sent;
    reply, c', sent := MineHandler(sha, [], {}, "   ", 0);
  }

  /** The lookup condition: the hash matches and, when a filter is given, the payload
      contains it. */
  predicate LookupMatches(b: Block, hash: string, contains: Option<string>) {
    b.hash == hash && (contains.None? || Contains(b.data, contains.value))
  }

  /** The position of the first block at or after `from` meeting the lookup condition. */
  function FirstMatch(c: Chain, hash: string, contains: Option<string>, from: nat): (r: Option<nat>)
    requires from <= |c|
    ensures r.Some? ==> from <= r.value < |c| && LookupMatches(c[r.value], hash, contains)
    ensures r.Some? ==> forall j :: from <= j < r.value ==> !LookupMatches(c[j], hash, contains)
    ensures r.None? ==> forall j :: from <= j < |c| ==> !LookupMatches(c[j], hash, contains)
    decreases |c| - from
  {
    if from == |c| then None
    else if LookupMatches(c[from], hash, contains) then Some(from)
    else FirstMatch(c, hash, contains, from + 1)
  }

  /** The block lookup: the first block, in chain order, whose hash is the requested one
      and, if a filter is given, whose payload contains it; none when no block does. */
  function LookupBlock(c: Chain, hash: string, contains: Option<string>): (r: Option<Block>)
    ensures r.None? <==> forall j :: 0 <= j < |c| ==> !LookupMatches(c[j], hash, contains)
    ensures r.Some? ==> exists i :: && 0 <= i < |c| && c[i] == r.value
                                    && LookupMatches(c[i], hash, contains)
                                    && forall j :: 0 <= j < i ==> !LookupMatches(c[j], hash, contains)
  {
    match FirstMatch(c, hash, contains, 0)
    case None => None
    case Some(i) => Some(c[i])
  }

  /** The filter selects among all blocks with the hash, not just the first: with two
      blocks sharing a hash, the unfiltered lookup finds the first, and a filter only the
      second's payload contains finds the second. */
  lemma FilterFindsLaterBlock()
    ensures var c := [Block(0, 0, "0", "h", "apple", 0), Block(1, 0, "h", "h", "banana", 0)];
            && LookupBlock(c, "h", None) == Some(c[0])
            && LookupBlock(c, "h", Some("nan")) == Some(c[1])
  {
    var c := [Block(0, 0, "0", "h", "apple", 0), Block(1, 0, "h", "h", "banana", 0)];
    assert IsPrefix("nan", "banana"[2..]);
    assert !Contains("apple", "nan") by {
      forall i | 0 <= i <= 2 ensures !IsPrefix("nan", "apple"[i..]) {
        assert "apple"[i] != 'n';
      }
    }
    assert FirstMatch(c, "h", Some("nan"), 0) == Some(1);
  }

  datatype PruneReply = PruneReply(prunedFrom: nat, to: nat)
  datatype PruneResponse = PruneResponse(reply: PruneReply, chain: Chain)

  /** The prune endpoint: keeps the last 100 blocks and reports the length before and
      after. */
  function PruneHandler(c: Chain): (r: PruneResponse)
    ensures r.reply.prunedFrom == |c|
    ensures r.reply.to == (if |c| <= 100 then |c| else 100)
    ensures |r.chain| == r.reply.to && r.chain == c[|c| - r.reply.to..]
  {
    var c' := Prune.PruneChain(c, PRUNE_RETAIN);
    PruneResponse(PruneReply(|c|, |c'|), c')
  }

  datatype StatusReply = StatusReply(index: nat, hash: string)
  datatype SummaryReply = SummaryReply(length: nat, tipIndex: nat, tipHash: string)

  /** The status endpoint: the tip's index and hash. */
  function Status(c: Chain): (r: StatusReply)
    requires |c| > 0
    ensures r.index == c[|c| - 1].index && r.hash == c[|c| - 1].hash
  {
    StatusReply(Tip(c).index, Tip(c).hash)
  }

  /** The summary endpoint: the length and the tip's index and hash. */
  function Summary(c: Chain): (r: SummaryReply)
    requires |c| > 0
    ensures r.length == |c|
    ensures r.tipIndex == c[|c| - 1].index && r.tipHash == c[|c| - 1].hash
  {
    SummaryReply(|c|, Tip(c).index, Tip(c).hash)
  }

  /** After a successful append, status and summary report the appended block. */
  lemma ReportsAfterAdd(c: Chain, b: Block)
    requires |c| > 0 && AddBlock(c, b).changed
    ensures Status(AddBlock(c, b).chain) == StatusReply(b.index, b.hash)
    ensures Summary(AddBlock(c, b).chain) == SummaryReply(|c| + 1, b.index, b.hash)
  {
  }

  /** On a valid chain the summary's tip index is one less than its length; after the
      prune endpoint cuts a longer chain to 100 blocks, the tip index no longer says
      the length. */
  lemma SummaryIndexAndLength(sha: Sha256, c: Chain)
    requires ValidChain(sha, c)
    ensures Summary(c).tipIndex + 1 == Summary(c).length
    ensures |c| > 100 ==> var s := Summary(PruneHandler(c).chain);
                          s.length == 100 && s.tipIndex == |c| - 1
  {
    Prune.IndexIsPosition(c, |c| - 1);
  }
}
