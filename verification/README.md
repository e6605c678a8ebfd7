# A verified model of the lantern node's core

This project models the core of a small proof-of-work blockchain node written in Rust. It
covers the following parts, each as its own module:

- block hashing and the "0000" proof-of-work test (`Cryptography`);
- blocks, the genesis chain, appending, mining and the longest-chain rule (`Blockchain`);
- pruning to the most recent blocks (`Prune`);
- the payload rule for mining requests (`Utils`);
- the peer-file and chain-file loaders, including their fallbacks (`Storage`);
- the peer registry and the targets of the two gossip fan-outs (`Networking`);
- the admission gate: the counter-store decision and the in-memory fallback (`RateLimit`);
- the request handlers' logic: mine, block lookup, prune, status and summary (`Routes`).

Two helper modules support these. `Strings` writes out the Rust string operations the code
relies on: `char::is_whitespace`, `trim`, `starts_with`, `contains`, the UTF-8 byte length
and decimal `Display`. `Wrappers` holds `Option`. Rust's `str::lines()` is written out in
`Storage`, next to the peer-file loader that uses it.

The node's mutable state becomes values. The chain is a `seq<Block>`, the peer registry a
`set<string>`, and the fallback rate table a `map<string, Entry>`. An operation that
mutates state returns the new value. SHA-256 is a function-valued parameter
`sha: string -> Digest`, so every property about hashes holds for any digest function.
Clock readings, the public-IP lookup result, file contents, the counter store's `INCR`
reply and environment variables are all parameters.

The model follows the code, including these behaviours a reader may not expect:

- `add_block` checks only the link to the tip and the "0000" prefix of the stored hash.
  It does not recompute the hash and does not look at the index. `AddBlockAcceptsUnsealed`
  shows a forged block being accepted.
- `sync` adopts any strictly longer chain without validating it (`SyncAdoptsBrokenChain`).
- The in-memory fallback admits a request while the count *before* the increment is at
  most 10. That is 11 requests per 60-second window, while the counter store admits 10
  (`FreshClientBurst`, `BackendsDisagree`).
- The chain can become empty: `prune_chain` with a count of 0, or a chain file holding an
  empty block list (`PruneEmptiness`, `StartupAdoptsEmptyChain`).

## Model

| member | source | states |
|---|---|---|
| Cryptography.CalculateHash | cryptography.rs:6-10 | the hash is 64 lowercase hex characters and decodes back to the digest of the concatenated fields |
| Cryptography.HexRoundTrip | cryptography.rs:9 | the `{:x}` rendering loses nothing: reading the hex back gives the digest |
| Cryptography.VerifyPowFirstFour | cryptography.rs:13-15 | the proof-of-work test holds exactly when the first four characters are '0'; shorter strings fail; only the first four characters matter |
| Cryptography.PowOfHex | cryptography.rs:8-14 | on a rendered digest, passing proof-of-work means the first two digest bytes are zero |
| Cryptography.IndexTimestampCollision | cryptography.rs:7 | without separators, index 1 with timestamp 23 and index 12 with timestamp 3 hash identically |
| Cryptography.PrevHashDataCollision | cryptography.rs:7 | moving text across the prev_hash/data boundary leaves the hash unchanged |
| Cryptography.AbCCollision | cryptography.rs:7 | prev_hash "ab" with data "c" hashes like prev_hash "a" with data "bc" |
| Cryptography.NonceDeterminesInput | cryptography.rs:7 | with the other fields fixed, distinct nonces give distinct hash inputs |
| Strings.DecimalRoundTrip | cryptography.rs:7 | the decimal rendering of a field reads back as the same number |
| Strings.DecimalInjective | cryptography.rs:7 | distinct numbers render to distinct decimal strings |
| Blockchain.NewBlock | blockchain.rs:17-27 | the new block carries the given fields and its stored hash is the hash of those fields |
| Blockchain.Genesis | blockchain.rs:29-31 | genesis is index 0, timestamp 0, prev_hash "0", data "GENESIS", nonce 0, and sealed |
| Blockchain.NewChain | blockchain.rs:40-44 | a new chain is genesis alone and satisfies the whole chain invariant |
| Blockchain.Tip | blockchain.rs:46-48 | the tip is a block of the chain, and the chain is the blocks before it followed by the tip |
| Blockchain.AddBlock | blockchain.rs:50-62 | the block is appended if and only if it names the tip's hash and its hash passes proof-of-work; otherwise the chain is unchanged |
| Blockchain.AddBlockKeepsLinksAndPow | blockchain.rs:50-62 | appending preserves hash links and proof-of-work along the chain and keeps the old blocks as a prefix |
| Blockchain.AddBlockAcceptsUnsealed | blockchain.rs:52-60 | a block whose stored hash is not the hash of its fields is still appended |
| Blockchain.MineBlock | blockchain.rs:64-84 | the mined block extends the tip, carries the clock value and payload, is sealed, passes proof-of-work, and its nonce is the least that passes |
| Blockchain.MiningDeterministic | blockchain.rs:69-83 | with the clock fixed, the least-nonce search has exactly one possible result |
| Blockchain.MineThenAdd | blockchain.rs:64-84 | a freshly mined block is always accepted by add_block on the chain it was mined from |
| Blockchain.MineThenAddKeepsValid | blockchain.rs:60 | appending a mined block keeps genesis, links, proof-of-work, seals and consecutive indices |
| Blockchain.Sync | blockchain.rs:86-93 | the other chain is adopted if and only if it is strictly longer |
| Blockchain.SyncIsLongestChain | blockchain.rs:87-92 | the result is one of the two chains, at least as long as both, and a tie keeps the current chain |
| Blockchain.SyncAdoptsBrokenChain | blockchain.rs:87-89 | a longer chain with a broken link replaces a valid chain |
| Prune.PruneChain | prune.rs:6-12 | the result is the last min(length, count) blocks of the chain, in order |
| Prune.PruneIdempotent | prune.rs:6-12 | pruning twice with the same count is pruning once |
| Prune.PruneEmptiness | prune.rs:7-9 | a positive count keeps a non-empty chain non-empty; a count of zero empties it |
| Prune.PruneKeepsInnerLinks | prune.rs:8-9 | the kept suffix keeps the links, proof-of-work and index steps between its blocks |
| Prune.PruneLosesGenesis | prune.rs:8-9 | pruning a longer valid chain drops genesis, so the result is no longer valid from the root |
| Prune.PruneLeavesDanglingLink | prune.rs:9 | in an example linked chain pruned to two blocks, the first kept block names a hash no kept block has |
| Utils.ValidDataPayload | utils.rs:11-13 | a payload is valid if and only if it has a non-whitespace character and its UTF-8 encoding is at most 1024 bytes |
| Utils.PayloadBoundaries | utils.rs:12 | empty and blank payloads fail, payloads over 1024 bytes fail, and any other payload passes |
| Utils.SurroundingWhitespaceCounts | utils.rs:12 | the length limit applies to the untrimmed payload: "x" plus 1024 spaces is rejected |
| Utils.NonAsciiCountsDouble | utils.rs:12 | the limit counts bytes, so 513 non-ASCII characters already exceed it |
| Strings.TrimEmptyIffBlank | utils.rs:12 | the trimmed payload is empty if and only if every character is whitespace |
| Strings.TrimIdempotent | storage.rs:23 | trimming a trimmed line changes nothing |
| Storage.Serialise | storage.rs:9-15 | no peers give an empty file; otherwise the file starts with the first peer and a newline, and ends with a newline; `ParseSerialise` is its round-trip partner |
| Storage.SerialiseOne | storage.rs:11-13 | a single peer is written as exactly its own line: the peer followed by a newline; with `SerialiseAppend` this fixes the whole file as one line per peer, in order |
| Storage.SerialiseAppend | storage.rs:11-13 | peers are written in list order: saving a concatenation writes the first list's lines, then the second's |
| Storage.LoadPeers | storage.rs:17-29 | a missing or unreadable file gives no peers; every loaded entry is a non-empty, trimmed line without a newline |
| Storage.ParseSerialise | storage.rs:9-29 | peers that are non-empty trimmed single lines are loaded back exactly as saved, in order |
| Storage.ParseStable | storage.rs:9-29 | saving a loaded list and loading it again gives the same list |
| Storage.ParseAppend | storage.rs:21-25 | loading keeps file order: content split at a line end loads as the first part's peers followed by the second's |
| Storage.BlankLinesDropped | storage.rs:21-25 | blank and whitespace-only lines contribute no peer |
| Storage.LinesOfOneLine | storage.rs:22 | a line without a newline, followed by a line feed, is read as one line, with a carriage return before the feed dropped |
| Storage.TrimStripCR | storage.rs:22-23 | dropping the carriage return of a `\r\n` ending does not change the trimmed line |
| Storage.ParseLine | storage.rs:21-25 | one line with padding loads as its trimmed text, and a blank line loads as nothing |
| Storage.ParseLastLine | storage.rs:21-25 | a last line with no line ending after it still loads, as its trimmed text, or as nothing when blank; with `ParseAppend` and `ParseLine` this fixes what every file loads |
| Strings.TrimUnique | storage.rs:23 | the trim is the only middle slice that starts and ends with a non-whitespace character and has only whitespace around it |
| Strings.TrimDropTrailingWs | storage.rs:23 | a trailing whitespace character does not change the trim |
| Storage.StartupChain | server.rs:12 | a missing or undecodable chain file gives the genesis chain, which is valid; a decoded chain is adopted as it is |
| Storage.StartupAdoptsEmptyChain | storage.rs:37-44 | a chain file decoding to an empty block list is adopted, leaving no tip |
| Networking.DetectPublicIp | networking.rs:19-23 | the lookup's answer, or "127.0.0.1" when the lookup fails |
| Networking.InitialPeers | networking.rs:10-15 | the starting registry holds exactly the loaded peer-file entries, and is empty without a file |
| Networking.OneUrlPerPeer | networking.rs:55-56 | a fan-out posts exactly one URL per peer |
| Networking.BlockTargets | networking.rs:52-62 | a block is posted to the `/block` URL of every known peer and of no one else |
| Networking.AnnounceTargets | networking.rs:64-77 | a new peer is announced at `/add_peer` to every known peer except itself |
| Networking.RegisterPeer | networking.rs:33-46 | a peer containing the node's address is refused; otherwise it is inserted, and it is saved and announced if and only if it was new |
| Networking.AddPeer | networking.rs:25-31 | add_peer changes the registry exactly as register_peer does, adding at most the given peer |
| Networking.RegisterTwice | networking.rs:39-45 | registering the same peer a second time adds, saves and announces nothing |
| Networking.AnnouncedToPreviousPeers | networking.rs:43 | a new peer is announced to exactly the peers known before it |
| Networking.SubstringFalsePositive | networking.rs:34 | the self test is substring containment, so with address "1.2.3.4" the host "http://11.2.3.45:80" is refused |
| Networking.EmptySelfRefusesAll | networking.rs:26-34 | an empty node address makes every peer count as self, so every registration is refused |
| Networking.RegisterKeepsSelfOut | networking.rs:33-39 | a registry without self peers keeps none after any registration |
| Networking.SavedPeersReload | networking.rs:42 | a saved registry of well-formed peers reloads as the same set, whatever order it was written in |
| Networking.EmptyPeerLostOnReload | networking.rs:39-42 | the empty peer is accepted and saved, but its blank line is dropped on reload |
| Networking.GetPeers | networking.rs:48-50 | the list holds every registered peer exactly once and nothing else |
| RateLimit.FallbackInMemory | rate_limit.rs:51-67 | a new client or an expired window restarts at one and passes; otherwise the count grows by one and the request passes if and only if the count before it is at most 10; only that client's entry changes |
| RateLimit.FallbackIsolatesClients | rate_limit.rs:53-54 | other clients' entries are untouched |
| RateLimit.RunWithinWindow | rate_limit.rs:56-66 | within one window, a client with count k has min(n, 11 - k) of n requests admitted, and its count grows by n |
| RateLimit.FreshClientBurst | rate_limit.rs:54-66 | a new client gets min(n, 11) of n requests in one window admitted |
| RateLimit.TwelveAtOnce | rate_limit.rs:62 | twelve simultaneous requests from a new client: eleven pass |
| RateLimit.RefusedStaysRefused | rate_limit.rs:56-64 | once refused, a client stays refused for the rest of the window |
| RateLimit.ConfigFromEnv | rate_limit.rs:36-39 | unset or unparsable settings default to a limit of 10 and a window of 60 seconds |
| RateLimit.StoreDecision | rate_limit.rs:32-43 | a failed INCR admits; otherwise a request passes if and only if the count is at most the limit; the expiry is set only on the first count |
| RateLimit.StoreRunAdmitsLimit | rate_limit.rs:32-43 | from a counter at s, exactly min(n, limit - s) of n requests pass |
| RateLimit.RateLimited | rate_limit.rs:24-49 | when the store answers: its verdict and its expiry, with the fallback table untouched; when it is unreachable: the fallback's verdict and updated table, with no expiry set |
| RateLimit.GateAdmission | rate_limit.rs:30-66 | a request passes when INCR failed or its count is within the limit; with the store unreachable, when the client is new, its window has expired, or its count before the request is at most 10 |
| RateLimit.FallbackIgnoresConfig | rate_limit.rs:45 | with the store unreachable, the configured limit and window play no part |
| RateLimit.BackendsDisagree | rate_limit.rs:39-62 | under default settings, the eleventh request is refused by the store but admitted by the fallback |
| Routes.PayloadRejectedIsInvalid | routes.rs:76 | the mine handler's test is exactly the negation of valid_data_payload |
| Routes.MineHandler | routes.rs:75-84 | an invalid payload leaves the chain alone and sends nothing, even on an empty chain; otherwise one mined block, with the least passing nonce, is appended, its hash is reported, it goes to every peer, and a valid chain stays valid |
| Routes.MineRejectsOnEmptyChain | routes.rs:76-78 | on an empty chain a blank payload gets the error reply and the chain stays empty, with no panic |
| Routes.LookupBlock | routes.rs:58-68 | the first block in chain order with the hash (and, with a filter, a payload containing it); none if and only if no block matches |
| Routes.FilterFindsLaterBlock | routes.rs:60-64 | a filter selects among all blocks with the hash, so it can find a later block than the unfiltered lookup |
| Routes.PruneHandler | routes.rs:89-95 | the reply gives the length before and after, and the chain keeps its last min(length, 100) blocks |
| Routes.Status | routes.rs:21-25 | the reply is the tip's index and hash |
| Routes.Summary | routes.rs:44-53 | the reply is the chain length and the tip's index and hash |
| Routes.ReportsAfterAdd | routes.rs:44-53 | after a successful append, status and summary report the appended block |
| Routes.SummaryIndexAndLength | routes.rs:47-51 | on a valid chain the tip index is the length minus one; after pruning a longer chain to 100 blocks it is not |

## Left out

- SHA-256 itself, and the UTF-8 encoding before it, are abstracted into the parameter `sha`.
- Fixed-width integers are unbounded naturals. This covers the `u64` index and nonce, the `u128` timestamp, the `u32` counter, the `usize` fallback counter and the nonce increment. Their overflow is not modelled.
- Blockchain.MineBlock: requires that some nonce passes proof-of-work. When none does, the node's loop never ends, and the model does not cover that case.
- Blockchain.Tip: the panic on an empty chain (blockchain.rs:47) is a precondition `|c| > 0`, not a modelled failure. Blockchain.AddBlock, Blockchain.MineBlock, Routes.Status and Routes.Summary inherit that precondition, so none of them covers the empty chain. Routes.MineHandler needs it only for a valid payload: the payload check (routes.rs:76-77) comes before the lock and `tip`, so an invalid payload gets the error reply on an empty chain too. An empty chain is reachable: a chain file that decodes to an empty block list is adopted at start-up (`Storage.StartupAdoptsEmptyChain`). On it, `/status` and `/chain/summary` panic while they hold the chain `Mutex` (routes.rs:22, 47), and so does `/mine` with a valid payload (routes.rs:79-80). That poisons the lock, so every later request that locks the chain panics in `unwrap` as well.
- Clock readings (`Utc::now`, `Instant::now`) are parameters.
- The HTTP requests are left out. This covers the broadcast sends, the public-IP lookup, and the counter store's connection, commands and key expiry. A fan-out is modelled as its set of target URLs, the lookup as its `Option` result, and the store as its `INCR` reply. The `rate:` key prefix is not modelled.
- File I/O and serde JSON are left out. File contents are an `Option<string>`, and a decoded chain is an `Option` of a block list. `save_chain` and its 10-second background task are not modelled.
- Locks and concurrency are not modelled: each handler is one atomic step on the state.
- Networking.RegisterPeer: describes the intended behaviour, not the code as written. When a peer is really inserted, `register_peer` still holds the registry guard (networking.rs:38-43) as `broadcast_new_peer` locks the same `std::sync::Mutex` again (networking.rs:65). A `Mutex` locked again by its holder never returns: it deadlocks or panics. So in the code, a new registration never returns `true` and `/add_peer` never replies. The registry then stays locked or poisoned, and a later `broadcast_block` in the mine handler blocks or panics while holding the chain lock. The model's `added`, `saved` and `announced` are what the code would give without the second lock.
- The order of `HashSet` iteration is left out. The saved peer file is a set, and `GetPeers` fixes no order.
- Environment variables reach the model already parsed, as `Option<nat>`.
- The warp route wiring is left out: filters, the API-key header and JSON shaping. So are the `tip`, `health`, `health_redis` and `rate_debug` endpoints, which only echo values or constants, and all logging.
- src/main.rs, src/networking.rs, bin/miner.rs and lib.rs are not part of this model. Of server.rs, only the start-up fallback to a new chain is modelled.
