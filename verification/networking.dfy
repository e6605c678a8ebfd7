/** The peer registry: self-exclusion, registration, listing, and the targets of the two
    gossip fan-outs. The registry is a value (`set<string>`); the node's own address is
    a parameter, fixed for the life of the process. The HTTP requests themselves are not
    modelled: a fan-out is the set of URLs it posts to. */
module Networking {
  import opened Wrappers
  import opened Strings
  import Storage

  /** The address `detect_public_ip` falls back to when the lookup fails. */
  const LOOPBACK_IP: string := "127.0.0.1"

  const BLOCK_PATH: string := "/block"
  const ADD_PEER_PATH: string := "/add_peer"

  /** `detect_public_ip`: the lookup's answer, or the loopback address when it fails. */
  function DetectPublicIp(lookup: Option<string>): (ip: string)
    ensures lookup.None? ==> ip == "127.0.0.1"
    ensures lookup.Some? ==> ip == lookup.value
  {
    lookup.GetOr(LOOPBACK_IP)
  }

  /** The self test: the peer string contains the node's address anywhere in it. */
  predicate IsSelf(selfIp: string, peer: string) {
    Contains(peer, selfIp)
  }

  /** The peer set the node starts with: the entries of the peer file. Loaded entries are
      not checked against the node's own address. */
  function InitialPeers(file: Option<string>): (peers: set<string>)
    ensures file.None? ==> peers == {}
    ensures forall p :: p in peers <==> p in Storage.LoadPeers(file)
  {
    set p | p in Storage.LoadPeers(file)
  }

  /** The URL a fan-out posts to for one peer: the peer string followed by the path. */
  function Url(peer: string, path: string): string {
    peer + path
  }

  /** Appending the same path to two peers gives the same URL only for the same peer. */
  lemma UrlInjective(p: string, q: string, path: string)
    requires Url(p, path) == Url(q, path)
    ensures p == q
  {
    assert |p| == |q|;
    assert p == Url(p, path)[..|p|];
  }

  /** The URLs a fan-out to `peers` posts to. */
  function Urls(peers: set<string>, path: string): (urls: set<string>)
    ensures forall p :: p in peers <==> Url(p, path) in urls
    ensures forall u :: u in urls ==> exists p :: p in peers && u == Url(p, path)
  {
    var urls := set p | p in peers :: Url(p, path);
    assert forall p :: Url(p, path) in urls ==> p in peers by {
      forall p | Url(p, path) in urls ensures p in peers {
        var q :| q in peers && Url(q, path) == Url(p, path);
        UrlInjective(p, q, path);
      }
    }
    urls
  }

  /** A fan-out posts exactly one request per peer: distinct peers get distinct URLs. */
  lemma {:induction false} OneUrlPerPeer(peers: set<string>, path: string)
    ensures |Urls(peers, path)| == |peers|
    decreases |peers|
  {
    if peers != {} {
      var x :| x in peers;
      var rest := peers - {x};
      OneUrlPerPeer(rest, path);
      assert Urls(peers, path) == Urls(rest, path) + {Url(x, path)};
      assert Url(x, path) !in Urls(rest, path);
    } else {
      assert Urls(peers, path) == {};
    }
  }

  /** `broadcast_block`'s targets: every known peer, at `/block`. */
  function BlockTargets(peers: set<string>): (urls: set<string>)
    ensures forall p :: p in peers <==> Url(p, BLOCK_PATH) in urls
    ensures |urls| == |peers|
  {
    OneUrlPerPeer(peers, BLOCK_PATH);
    Urls(peers, BLOCK_PATH)
  }

  /** `broadcast_new_peer`'s targets: every known peer except the new one, at
      `/add_peer`. */
  function AnnounceTargets(peers: set<string>, newPeer: string): (urls: set<string>)
    ensures forall p :: p in peers && p != newPeer <==> Url(p, ADD_PEER_PATH) in urls
    ensures |urls| == |peers - {newPeer}|
  {
    OneUrlPerPeer(peers - {newPeer}, ADD_PEER_PATH);
    Urls(peers - {newPeer}, ADD_PEER_PATH)
  }

  /** The outcome of `register_peer`: the set afterwards, the boolean returned, the set
      written to the peer file (if any), and the URLs the new peer is announced to. */
  datatype Registration = Registration(peers: set<string>, added: bool, saved: Option<set<string>>, announced: set<string>)

  /** `register_peer`: a peer containing the node's address is refused; otherwise it is
      inserted, and only a real insertion saves the set and announces the peer to the
      others. */
  function RegisterPeer(selfIp: string, peers: set<string>, peer: string): (r: Registration)
    ensures IsSelf(selfIp, peer) ==> r == Registration(peers, false, None, {})
    ensures !IsSelf(selfIp, peer) ==> r.peers == peers + {peer} && (r.added <==> peer !in peers)
    ensures r.added <==> r.saved.Some?
    ensures r.added ==> r.saved == Some(r.peers) && r.announced == AnnounceTargets(r.peers, peer)
    ensures !r.added ==> r.peers == peers && r.saved.None? && r.announced == {}
  {
    if IsSelf(selfIp, peer) then
      Registration(peers, false, None, {})
    else
      var added := peer !in peers;
      var peers' := peers + {peer};
      if added then Registration(peers', true, Some(peers'), AnnounceTargets(peers', peer))
      else Registration(peers', false, None, {})
  }

  /** `add_peer`: the same self test and insertion, with no save and no announcement. */
  function AddPeer(selfIp: string, peers: set<string>, peer: string): (peers': set<string>)
    ensures peers' == RegisterPeer(selfIp, peers, peer).peers
    ensures peers <= peers' && peers' - peers <= {peer}
  {
    if IsSelf(selfIp, peer) then peers else peers + {peer}
  }

  /** Registering the same peer twice: the second call adds nothing, saves nothing and
      announces nothing. */
  lemma RegisterTwice(selfIp: string, peers: set<string>, peer: string)
    ensures var first := RegisterPeer(selfIp, peers, peer);
            var second := RegisterPeer(selfIp, first.peers, peer);
            && !second.added
            && second.peers == first.peers
            && second.saved.None?
            && second.announced == {}
  {
  }

  /** A new peer is announced to exactly the peers known before it. */
  lemma AnnouncedToPreviousPeers(selfIp: string, peers: set<string>, peer: string)
    requires RegisterPeer(selfIp, peers, peer).added
    ensures RegisterPeer(selfIp, peers, peer).announced == Urls(peers, ADD_PEER_PATH)
  {
    assert (peers + {peer}) - {peer} == peers;
  }

  /** The self test is substring containment: with address "1.2.3.4" the different host
      "http://11.2.3.45:80" is refused. */
  lemma SubstringFalsePositive(peers: set<string>)
    ensures IsSelf("1.2.3.4", "http://11.2.3.45:80")
    ensures RegisterPeer("1.2.3.4", peers, "http://11.2.3.45:80") == Registration(peers, false, None, {})
  {
    var peer := "http://11.2.3.45:80";
    assert IsPrefix("1.2.3.4", peer[8..]);
  }

  /** An empty self address is contained in every string, so every peer is refused. */
  lemma EmptySelfRefusesAll(peers: set<string>, peer: string)
    ensures RegisterPeer("", peers, peer) == Registration(peers, false, None, {})
    ensures AddPeer("", peers, peer) == peers
  {
    assert IsPrefix("", peer[0..]);
  }

  /** A registry that holds no self peer keeps holding none after any registration. */
  lemma RegisterKeepsSelfOut(selfIp: string, peers: set<string>, peer: string)
    requires forall p :: p in peers ==> !IsSelf(selfIp, p)
    ensures forall p :: p in RegisterPeer(selfIp, peers, peer).peers ==> !IsSelf(selfIp, p)
  {
  }

  /** A saved peer set comes back intact on reload when every peer is a well-formed
      line, whatever order the set was written in. */
  lemma SavedPeersReload(saved: set<string>, written: seq<string>)
    requires forall p :: p in saved <==> p in written
    requires forall k :: 0 <= k < |written| ==> Storage.PeerLine(written[k])
    ensures InitialPeers(Some(Storage.Serialise(written))) == saved
  {
    Storage.ParseSerialise(written);
  }

  /** The registry accepts the empty string as a peer and saves it, but the saved line is
      blank, so the peer is gone after a reload. */
  lemma EmptyPeerLostOnReload()
    ensures var r := RegisterPeer("1.2.3.4", {}, "");
            r.added && r.saved == Some({""})
            && InitialPeers(Some(Storage.Serialise([""]))) == {}
  {
    assert !IsSelf("1.2.3.4", "");
    Storage.BlankLinesDropped("", "");
    assert Storage.Serialise([""]) == "" + "\n" + "";
    assert Storage.Parse("") == [];
  }

  /** `get_peers`: lists the set, each peer once, in the set's iteration order (which
      is left unspecified). */
  method GetPeers(peers: set<string>) returns (list: seq<string>)
    ensures |list| == |peers|
    ensures forall p :: p in peers <==> p in list
    ensures forall i, j :: 0 <= i < j < |list| ==> list[i] != list[j]
  {
    list := [];
    var rest := peers;
    while rest != {}
      invariant rest <= peers
      invariant forall p :: p in peers <==> p in rest || p in list
      invariant forall p :: p in list ==> p !in rest
      invariant |list| + |rest| == |peers|
      invariant forall i, j :: 0 <= i < j < |list| ==> list[i] != list[j]
      decreases |rest|
    {
      var p :| p in rest;
      list := list + [p];
      rest := rest - {p};
    }
  }
}
