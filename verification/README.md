# Verification of the clash core of itun2socks

A Dafny model of the algorithmic parts of `pkg/clash`, with proofs of what they promise:

- **Fake-IP pool** (`LruSpec`, `LruHistory`, `LruCache`, `FakeIPEntries`, `FakeIPStore`, `PoolSpec`, `PoolLaws`, `IPNets`,
  `FakeIPPool`): three layers, a cache of entry objects on a list and a map, a store that keeps host -> address and
  address -> host as two entries of one cache, and the allocator. The entries of a pair are always neighbours in recency
  order; that is why eviction, one entry at a time, removes whole pairs.
- **Domain trie** (`TrieSpec`, `TrieLaws`, `Trie`): insertion and backtracking search over linked nodes, against a scan of the
  history of inserts in priority order; and what each kind of pattern means, on strings.
- **Proxy group sort** (`DagSpec`, `DagPaths`, `DagSort`, `DagLoop`, `ProxyGroups`): in-place topological sort, cycle detection and
  cycle location, for every order in which Go may iterate over a map.
- **Stream framing, pulled** (`Framing`, `Wires`, `Aeads`, `VmessChunk`, `VmessAead`, `ShadowAead`): one theorem about framed streams
  with leftover buffers, three protocols that satisfy its laws, their writer and reader objects, and what is on the wire.
- **Stream framing, pushed** (`Reassembly`, `Buffers`, `AuthFrame`, `XorShift`, `XorShiftLaws`, `XorStream`, `AuthChainSpec`,
  `AuthChain`, `AuthLaws`, `ChainLaws`): one theorem about decoders fed in pieces, the four SSR auth protocols that satisfy
  its laws, their objects, and which bytes they take.
- **Hashing and balancing** (`Murmur3`, `MurmurLaws`, `LoadBalance`, `JumpBalance`), the **dual-stack dialer** and the **single
  flight** as step systems (`DualStack`, `SingleFlight`), and the **SOCKS address codec** (`SocksAddr`; sections 4, 5 and 7 of
  RFC 1928).

Each object is proved against a function on values; the theorems are about that function, over all runs. The modules called
laws say what these functions mean without them: on strings, bytes and bits, on the events alone, and by known answers.
`Bytes`, `Net` and `Wrappers` hold what the modules share.

Parameters: cryptography (seal/open with `open(n, seal(n, m)) == m`, HMAC, CRC32, Adler32, the RC4 key stream), random
bytes, the clock, `strings.ToLower`, and the decoding of a group's configuration.

The model follows the code, also where it does less than one might expect:

- The two bytes an auth_chain receiver drops belong to the frame numbered 1, not only to the first: numbers wrap at 2^32
  (`AuthChainSpec.AllComesOut`).
- An auth_chain frame with neither data nor padding is four bytes long, and waits for a fifth before it is taken. Encode makes
  no such frame; the stream theorems are about those it makes (`AuthChainSpec.FrameOutcome`, `AuthChainSpec.BareFrame`).
- `Decode` panics on frames that pass their checks but lie about their content; when, over any stream in any pieces, is
  exactly what `AuthFrame.PanicsExactly` and `AuthChainSpec.PanicsExactly` say. The checks of auth_sha1_v4 use no key.
- `parseSocksAddr` indexes with sums of bytes: it panics for hosts whose length modulo 256 is 254 or 255, and gives a host
  of 253 bytes a wrong port unless the port's low byte is 3 (`SocksAddr.MetadataRoundTrip`).
- `fakeip.New` takes the first four bytes of an IPv6 network (`FakeIPPool.New`); whether the pool wraps around from the highest
  address to 0 is exactly what `FakeIPPool.GoesUpExactly` says (`FakeIPPool.SomeWrapAround`: 2001:db8::/96 does).
- The loop report of `proxyGroupsDagSort` is meant to hold only the loops. It holds them and whatever lies between two of them:
  with a listing [a, x], x listing [b] and b listing [b], x is reported (`ProxyGroups.ReportsMore`). It is exactly the loops iff
  no path between two cycles leaves the cycles (`ProxyGroups.ReportsOnlyLoops`).
- `authChainA.Encode` encrypts its argument in place, so the buffer given to `Conn.Write` is changed.

## Model

| member | source | states |
|---|---|---|
| LruSpec.RunIsOrderedByLastUse | pkg/clash/common/cache/lrucache.go:126-188 | over every run of sets, gets and deletes the list is ordered by last use, keys are distinct and a positive maxSize is never exceeded |
| LruSpec.SizeVictimIsLeastRecentlyUsed | pkg/clash/common/cache/lrucache.go:135-144 | the entry a full cache gives up for a new key is the one whose last set or hit is oldest; a cache with room gives up none |
| LruSpec.RunIsSortedByExpiry | pkg/clash/common/cache/lrucache.go:184-186 | with updateAgeOnGet, the cache's own expiry times and a clock that never goes back, read twice by each operation, expiries are sorted along the list |
| LruSpec.DropExpiredIsExact | pkg/clash/common/cache/lrucache.go:201-208 | on a list sorted by expiry the delete loop from the front removes every expired entry and no other |
| LruSpec.SetLeavesExactlyTheLive | pkg/clash/common/cache/lrucache.go:116-147 | in such a run a Set leaves exactly the entries that expire after its second look at the clock |
| LruHistory.RunTells | pkg/clash/common/cache/lrucache.go:126-199 | over every run an entry carries the value given in the last set of its key and expires when that set, or a later hit that refreshed it, says; a deleted key has no entry until it is set again |
| LruHistory.GetGivesLast | pkg/clash/common/cache/lrucache.go:83-91 | a Get after any run gives the key's last value or nothing; nothing exactly if no entry has the key, or its time is over and stale entries are not returned |
| LruHistory.KeyIsKept | pkg/clash/common/cache/lrucache.go:126-208 | a key just set or hit stays until it is deleted, its time is over, or maxSize other keys have come up |
| LruHistory.GetFindsKept | pkg/clash/common/cache/lrucache.go:166-188 | as long as that a Get gives the key's last value |
| LruCacheModel.LruCache.SetWithExpire | pkg/clash/common/cache/lrucache.go:126-147 | map and list are updated in place and stay in agreement; the new entry sequence is the specified one, whose values LruHistory.RunTells fixes |
| LruCacheModel.LruCache.GetEntry | pkg/clash/common/cache/lrucache.go:166-188 | a hit moves to the back and may refresh its age; when stale entries are not returned, no entry is that had expired when the clock was read first |
| LruCacheModel.LruCache.Get | pkg/clash/common/cache/lrucache.go:83-91 | the value found, and the same effect on the order |
| LruCacheModel.LruCache.Set | pkg/clash/common/cache/lrucache.go:116-122 | SetWithExpire with the cache's own expiry time |
| LruCacheModel.LruCache.Delete | pkg/clash/common/cache/lrucache.go:191-199 | exactly the entry of the key goes, from map and list |
| LruCacheModel.LruCache.Exist | pkg/clash/common/cache/lrucache.go:107-113 | whether an entry has the key; no reordering |
| LruCacheModel.LruCache.MaybeDeleteOldest | pkg/clash/common/cache/lrucache.go:201-208 | the loop cuts off the expired front of the list |
| FakeIPEntries.PutBoth | pkg/clash/component/fakeip/memory.go:45-47 | PutByIP then PutByHost of a new pair: although a full LRU gives up the oldest pair one half at a time, adjacency and agreement of all pairs are restored |
| FakeIPEntries.UseHost | pkg/clash/component/fakeip/memory.go:14-24 | the two Gets of GetByHost leave the LRU a concatenation of adjacent, agreeing host/IP entries, with the pair moved to the end |
| FakeIPEntries.UseIP | pkg/clash/component/fakeip/memory.go:32-42 | the same for GetByIP |
| FakeIPEntries.DropBoth | pkg/clash/component/fakeip/memory.go:50-56 | DelByIP removes both entries of the pair and leaves all others adjacent |
| FakeIPStore.MemoryStore.GetByHost | pkg/clash/component/fakeip/memory.go:14-24 | the address of the host's pair, which becomes the most recent; None exactly if no live pair has the host |
| FakeIPStore.MemoryStore.GetByIP | pkg/clash/component/fakeip/memory.go:32-42 | the host of the address's pair, which becomes the most recent |
| FakeIPStore.MemoryStore.PutByIP | pkg/clash/component/fakeip/memory.go:45-47 | first half of an insertion: the state in between, with one entry of the new pair and perhaps one of the oldest |
| FakeIPStore.MemoryStore.PutByHost | pkg/clash/component/fakeip/memory.go:27-29 | second half: all pairs adjacent again, the oldest pair of a full store gone in both directions |
| FakeIPStore.MemoryStore.DelByIP | pkg/clash/component/fakeip/memory.go:50-56 | the pair of the address goes, in both directions |
| FakeIPStore.MemoryStore.Exist | pkg/clash/component/fakeip/memory.go:59-61 | whether a live pair has the address |
| PoolSpec.RunKeepsGood | pkg/clash/component/fakeip/pool.go:36-81 | after every run of Lookup, LookBack and Exist, live hosts and addresses are in bijection, in range, at most Size pairs, offset below max-min |
| PoolSpec.Retention | pkg/clash/component/fakeip/pool.go:36-61 | if max-min > Size >= 1, the address a Lookup returned stays with its host, both ways, over every run touching fewer than Size other hosts; the forced-reuse branch is not reached |
| PoolSpec.ExhaustedMeansFull | pkg/clash/component/fakeip/pool.go:107-113 | forced reuse happens only when at least max-min pairs are live |
| PoolSpec.AllocateFree | pkg/clash/component/fakeip/pool.go:98-118 | with a free address one that no live host holds is chosen, and nobody loses theirs |
| PoolSpec.AllocateRobs | pkg/clash/component/fakeip/pool.go:107-113 | with all addresses held, exactly the pair holding the chosen one goes, in both directions |
| PoolLaws.AllocateIsNext | pkg/clash/component/fakeip/pool.go:98-118 | a new host gets the first free address from the last one handed out, going round; with none free, the one behind that |
| PoolLaws.FreshAddresses | pkg/clash/component/fakeip/pool.go:98-118 | the first hosts of a new pool get its addresses in order, as many as it holds |
| FakeIPPool.Pool.Lookup | pkg/clash/component/fakeip/pool.go:36-49 | the concrete pool makes the specified step; the address returned is that of the newest pair, under the lower-cased host; of a masked IPv4 network it has the network's bits under the mask, and is neither network address, gateway nor broadcast address |
| FakeIPPool.Pool.GetFor | pkg/clash/component/fakeip/pool.go:98-118 | get chooses the specified address and enters its first half |
| FakeIPPool.Pool.Probing | pkg/clash/component/fakeip/pool.go:99-114 | the wrap-around loop ends within max-min steps at the first free address, or exactly when there is none |
| FakeIPPool.Pool.LookBack | pkg/clash/component/fakeip/pool.go:52-61 | the host of a live address, or None; addresses that are not IPv4 change nothing |
| FakeIPPool.Pool.Exist | pkg/clash/component/fakeip/pool.go:72-81 | whether a live pair holds the address |
| FakeIPPool.NetworkFits | pkg/clash/component/fakeip/pool.go:142-165 | a masked IPv4 network address plus 2^bits stays within 32 bits |
| FakeIPPool.NetworkRange | pkg/clash/component/fakeip/pool.go:142-165 | so the addresses handed out are base+2 to base+2^k-2, with no wrapping around |
| FakeIPPool.InNetwork | pkg/clash/component/fakeip/pool.go:116-143 | byte by byte and bit by bit: every address of a masked IPv4 network's pool agrees with the network in its first ones bits, and is none of base, base+1 and broadcast |
| IPNets.BitOfNumber | pkg/clash/component/fakeip/pool.go:120-132 | bit j of an address, a bit of byte j/8, is bit 31-j of its number: the bytes are taken highest first |
| FakeIPPool.GoesUpExactly | pkg/clash/component/fakeip/pool.go:143-151 | of any network, IPv4 or IPv6, masked or not: the addresses go up from min without wrapping around exactly if min+span is at most 2^32 |
| FakeIPPool.SomeWrapAround | pkg/clash/component/fakeip/pool.go:143-151 | 2001:db8::/96 gives a pool that wraps around to 0, 2001:db8::/100 one that does not |
| FakeIPPool.New | pkg/clash/component/fakeip/pool.go:142-165 | for any address of at least four bytes and any mask: a pool of that network iff 2 to 63 bits are free; its range, gateway and the 32- and 64-bit wrap-arounds are as the arithmetic gives them |
| TrieSpec.JoinSplit | pkg/clash/component/trie/domain.go:30 | splitting at dots loses nothing |
| TrieSpec.SplitJoin | pkg/clash/component/trie/domain.go:30 | and gives back the labels a domain was joined from |
| TrieSpec.ValidAndSplitDomain | pkg/clash/component/trie/domain.go:25-44 | the labels of a valid domain: joined they are the domain, only the first may be empty |
| TrieSpec.InvalidDomains | pkg/clash/component/trie/domain.go:25-44 | refused are exactly the empty domain and those with a dot that no label follows |
| TrieSpec.BetterIsTotal | pkg/clash/component/trie/domain.go:85-89 | of two different patterns matching a domain exactly one comes first (exact, then wildcard, then leading dot, from the right) |
| TrieSpec.BestIsUnique | pkg/clash/component/trie/domain.go:85-123 | so a search has at most one answer |
| TrieSpec.ReplayHoldsLastWrite | pkg/clash/component/trie/domain.go:46-83 | after any inserts each pattern has the data inserted last for it, unless that was nil; which patterns an insert writes is what the laws of TrieLaws say |
| TrieSpec.BestIsFirstAmongInserted | pkg/clash/component/trie/domain.go:90-103 | the linear-scan meaning: the answer is the last data of a matching pattern before all other matching ones |
| TrieSpec.NoneMatchesInserted | pkg/clash/component/trie/domain.go:90-103 | there is no answer exactly if no pattern whose last insert was not nil matches |
| TrieLaws.DomainLaw | pkg/clash/component/trie/domain.go:53-68 | an insert of a plain domain answers for it and nothing else |
| TrieLaws.DotLaw | pkg/clash/component/trie/domain.go:47-52 | an insert of .x answers for exactly the domains that end in .x, at any depth, not for x |
| TrieLaws.PlusLaw | pkg/clash/component/trie/domain.go:59-62 | an insert of +.x answers for x and for exactly the domains that end in .x |
| TrieLaws.StarLaw | pkg/clash/component/trie/domain.go:47-52 | an insert of *.x answers for exactly the domains one label longer than x |
| TrieLaws.InnerStarLaw | pkg/clash/component/trie/domain.go:47-52 | an insert of a.*.x answers for exactly the domains with one label between a and x |
| TrieLaws.PriorityLaw | pkg/clash/component/trie/domain.go:85-89 | with l.x, *.x and .x inserted in any order, l.x answers for itself, the star for other domains one label longer, the dot for what is deeper |
| TrieLaws.OverwriteLaw | pkg/clash/component/trie/domain.go:70-83 | of two inserts of a domain the last counts, and nil takes it out |
| TrieLaws.AnswerIsUnique | pkg/clash/component/trie/domain.go:90-103 | after any history there is one answer for a domain |
| TrieSpec.BestThrough | pkg/clash/component/trie/domain.go:110-120 | going down one label loses no better match elsewhere |
| TrieSpec.BestAtDot | pkg/clash/component/trie/domain.go:122 | after both deeper searches failed only the leading dot is left |
| Trie.DomainTrie.Insert | pkg/clash/component/trie/domain.go:53-68 | the trie holds the history of inserts extended by this one; an error exactly for an invalid domain; what Search then answers is what the laws of TrieLaws say |
| Trie.DomainTrie.InsertParts | pkg/clash/component/trie/domain.go:70-83 | the walk writes the data of one path and no other |
| Trie.DomainTrie.Search | pkg/clash/component/trie/domain.go:90-103 | for every history of inserts leading to this trie, Search answers what a linear scan of that history in priority order does |
| Trie.DomainTrie.SearchFrom | pkg/clash/component/trie/domain.go:105-123 | backtracking finds the first match below a node, or there is none |
| DagSpec.CycleWithin | pkg/clash/config/utils.go:96-99 | a nonempty set in which every member is listed by a member holds a cycle: what is left after the sort is one |
| DagPaths.ClosedIsOnTheWay | pkg/clash/config/utils.go:121-140 | the largest set in which every member lists and is listed by a member consists exactly of the names on a path from a cycle to a cycle |
| DagPaths.OnlyLoops | pkg/clash/config/utils.go:121 | all names on such paths are on cycles iff no path between two cycles leaves them |
| DagSort.BuildGraph | pkg/clash/config/utils.go:37-62 | in-degrees count all listings; stops at the first entry that does not decode or repeats a name |
| DagSort.TopologicalSort | pkg/clash/config/utils.go:63-94 | the work queue fills the array from the back with groups in order and leaves no node without incoming edges |
| DagLoop.FillFroms | pkg/clash/config/utils.go:101-120 | out-degrees and predecessor lists of the remaining graph; no lookup yields a missing node |
| DagLoop.PeelOut | pkg/clash/config/utils.go:121-140 | leaves exactly the names that a path from a cycle leads to and that lead to a cycle: the loops, and beyond what the comment promises what lies between two of them; every set whose members list and are listed within it stays |
| ProxyGroups.ProxyGroupsDagSort | pkg/clash/config/utils.go:21-148 | nil exactly if all groups decode, names are distinct and the graph is acyclic; then a permutation with every group after all it lists; else the first offending entry, or exactly the names on the way from a cycle to a cycle |
| ProxyGroups.ReportsOnlyLoops | pkg/clash/config/utils.go:121 | the promise that only loops are reported: it holds iff no path between two cycles passes a name off the cycles |
| ProxyGroups.ReportsMore | pkg/clash/config/utils.go:121-147 | an input on which it fails: a group listed by one self-listing group that lists another is reported, though it is on no cycle |
| Framing.RunKeepsStream | pkg/clash/transport/vmess/chunk.go:32-99 | for any lawful framing and any run of writes and reads: handed out + held + on the wire = written |
| Framing.StreamIsIdentity | pkg/clash/transport/vmess/chunk.go:32-99 | bytes read are a prefix of bytes written, all of them once nothing is in between, and then the counters agree |
| Framing.ReadsFailQuietly | pkg/clash/transport/vmess/chunk.go:32-72 | on such a stream a read fails only with EOF, when everything written has been read, or at an empty chunk |
| Framing.StreamIsDelivered | pkg/clash/transport/vmess/chunk.go:32-72 | after any run, finitely many reads into nonempty buffers deliver all that was written |
| VmessChunk.UnframeFrame | pkg/clash/transport/vmess/chunk.go:32-99 | one chunk: reader inverts writer; the frame fits the 20 KiB buffer and the reader's maxSize |
| VmessChunk.WriteLayout | pkg/clash/transport/vmess/chunk.go:78-99 | byte by byte what a write puts on the wire: of every piece of up to 16384 bytes the length, high byte first, and the piece |
| VmessChunk.ReadsExactly | pkg/clash/transport/vmess/chunk.go:32-72 | what reading a chunk gives on any bytes, the error cases included |
| VmessChunk.CodecIsLawful | pkg/clash/transport/vmess/chunk.go:32-99 | the chunk framing satisfies the laws |
| VmessChunk.StreamRoundTrip | pkg/clash/transport/vmess/chunk.go:32-99 | chunkReader after chunkWriter is the identity under any write and read sizes |
| VmessChunk.ChunkWriter.Write | pkg/clash/transport/vmess/chunk.go:78-99 | the loop emits exactly the frames of the pieces |
| VmessChunk.ChunkReader.Read | pkg/clash/transport/vmess/chunk.go:32-72 | one Read is the specified step; a leftover buffer keeps its offset below its length |
| VmessAead.UnframeFrame | pkg/clash/transport/vmess/aead.go:27-121 | one sealed chunk: opened with the same counter it gives back the payload; it fits the buffers |
| VmessAead.NoncesDiffer | pkg/clash/transport/vmess/aead.go:44-46 | the nonces of two chunks are equal exactly if their numbers agree modulo 2^16 |
| VmessAead.WiresLayout | pkg/clash/transport/vmess/aead.go:27-58 | what any writes put on the wire: of every piece the sealed length, high byte first, and the piece sealed under its number, high byte first, bytes 2 to 11 of the iv, and zeros |
| VmessAead.ReadsExactly | pkg/clash/transport/vmess/aead.go:75-121 | what reading a chunk gives on any bytes, under which nonce it is opened, and where the counter is after a failure |
| VmessAead.CodecIsLawful | pkg/clash/transport/vmess/aead.go:27-121 | the sealed framing satisfies the laws, uint16 counter wrap included |
| VmessAead.StreamRoundTrip | pkg/clash/transport/vmess/aead.go:27-121 | aeadReader after aeadWriter is the identity, with equal counters whenever nothing is in between |
| VmessAead.AeadWriter.Write | pkg/clash/transport/vmess/aead.go:27-58 | the loop emits exactly the sealed frames and advances the counter |
| VmessAead.AeadReader.Read | pkg/clash/transport/vmess/aead.go:75-121 | one Read is the specified step, errors included |
| ShadowAead.IncAddsOne | pkg/clash/transport/shadowsocks/shadowaead/stream.go:199-207 | increment adds one modulo 256^n, little-endian |
| ShadowAead.NoncesDiffer | pkg/clash/transport/shadowsocks/shadowaead/stream.go:199-207 | within 256^n seals no nonce repeats |
| ShadowAead.WireIsSeals | pkg/clash/transport/shadowsocks/shadowaead/stream.go:31-62 | what any writes put on the wire is the sequence of all lengths, high byte first, and payloads, the i-th message sealed under the starting nonce plus i; up to 256^n messages no nonce of n bytes seals two |
| ShadowAead.ReadsExactly | pkg/clash/transport/shadowsocks/shadowaead/stream.go:106-137 | what reading a record gives on any bytes: length and payload opened under two successive nonces, and where the nonce is after a failure |
| ShadowAead.Increment | pkg/clash/transport/shadowsocks/shadowaead/stream.go:199-207 | the in-place loop with early return computes it |
| ShadowAead.UnframeFrame | pkg/clash/transport/shadowsocks/shadowaead/stream.go:31-62 | one record: read inverts Write; an empty payload surfaces as ErrZeroChunk and costs one nonce on both sides |
| ShadowAead.CodecIsLawful | pkg/clash/transport/shadowsocks/shadowaead/stream.go:31-161 | the record framing satisfies the laws |
| ShadowAead.StreamRoundTrip | pkg/clash/transport/shadowsocks/shadowaead/stream.go:31-161 | for any writes and read sizes the bytes read are a prefix of those written, and nonces agree |
| ShadowAead.NonceCountsSeals | pkg/clash/transport/shadowsocks/shadowaead/stream.go:31-62 | the nonce has moved by one for each seal |
| ShadowAead.ChunksKeepAll | pkg/clash/transport/shadowsocks/shadowaead/stream.go:48-60 | payload records are 1 to 16383 bytes and make up the data |
| ShadowAead.Writer.Write | pkg/clash/transport/shadowsocks/shadowaead/stream.go:31-62 | the loop emits exactly those records: the messages of the write, the i-th sealed under the nonce it starts with plus i |
| ShadowAead.Reader.ReadRecord | pkg/clash/transport/shadowsocks/shadowaead/stream.go:106-137 | read consumes one record or fails as specified, which ShadowAead.ReadsExactly tells on the bytes |
| ShadowAead.Reader.Read | pkg/clash/transport/shadowsocks/shadowaead/stream.go:140-161 | one Read, on the direct or the buffered path, is the same specified step |
| Reassembly.DecodePrefix | pkg/clash/transport/ssr/protocol/auth_aes128_sha1.go:94-137 | on any prefix of a genuine stream the decode loop delivers the whole frames' payloads and keeps the rest |
| Reassembly.FeedReassembles | pkg/clash/transport/ssr/protocol/stream.go:17-35 | the same for any fragmentation, however often a partial frame is looked at; the two ends stay in step |
| Reassembly.FeedDeliversAll | pkg/clash/transport/ssr/protocol/stream.go:17-35 | when all bytes are in, all payloads are out and nothing is left over |
| Reassembly.FragmentationIsInvisible | pkg/clash/transport/ssr/protocol/stream.go:17-35 | for decoders that keep to what they have settled: feeding any stream in pieces gives the output, the error and the rest of decoding it at once |
| Reassembly.FailsExactly | pkg/clash/transport/ssr/protocol/auth_aes128_sha1.go:99-135 | a decoding fails iff, after some number of whole frames, the next is refused |
| Reassembly.ReadsWhatIsFed | pkg/clash/transport/ssr/protocol/stream.go:17-35 | whatever the read buffers, what Conn.Read returns is what the decoder puts out, in order |
| Reassembly.ConnDelivers | pkg/clash/transport/ssr/protocol/stream.go:17-35 | on a genuine stream no read fails, what has been read is a prefix of what was sent, and all of it is there once all bytes are taken |
| AuthFrame.PaddingIsSound | pkg/clash/transport/ssr/protocol/auth_aes128_sha1.go:210-229 | every padding the generators can choose gives 7 <= length < 8192 |
| AuthFrame.PackLayout | pkg/clash/transport/ssr/protocol/auth_aes128_sha1.go:174-199 | length, checks and both forms of the padding prefix lie where the decoder looks, and lead to the payload |
| AuthFrame.StepTakes | pkg/clash/transport/ssr/protocol/auth_aes128_sha1.go:99-135 | a whole frame is taken off the front with exactly its payload (both protocols) |
| AuthFrame.StepWaits | pkg/clash/transport/ssr/protocol/auth_sha1_v4.go:46-60 | part of a frame leaves the decoder as it was |
| AuthFrame.IsLockstep | pkg/clash/transport/ssr/protocol/auth_sha1_v4.go:41-78 | sender and receiver of both protocols satisfy the reassembly laws |
| AuthFrame.StreamRoundTrip | pkg/clash/transport/ssr/protocol/auth_aes128_sha1.go:94-155 | any sequence of writes, any padding, any fragmentation: all that was written comes out in order, nothing left over, IDs in step |
| AuthFrame.ConnRoundTrip | pkg/clash/transport/ssr/protocol/stream.go:17-35 | the same through Conn.Read at any time: no read fails, what was read is a prefix of what was written, and all of it once all bytes are taken |
| AuthFrame.Fragmentation | pkg/clash/transport/ssr/protocol/auth_aes128_sha1.go:94-137 | for every stream of bytes, sent by whomever, the cut into pieces changes neither output nor error nor rest |
| AuthFrame.PanicsExactly | pkg/clash/transport/ssr/protocol/auth_sha1_v4.go:68-74 | over any stream in any pieces Decode panics iff, after some whole frames, one passes both checks and claims more padding than it holds |
| AuthFrame.OverclaimingOverclaims | pkg/clash/transport/ssr/protocol/auth_sha1_v4.go:68-74 | a frame that reaches it, for either protocol |
| AuthLaws.Aes128TakesExactly | pkg/clash/transport/ssr/protocol/auth_aes128_sha1.go:94-137 | a frame of auth_aes128_sha1 is taken iff its length, byte by byte, both digests over their bytes, keyed by user key and number, and its start are right; and what is taken |
| AuthLaws.Sha1V4TakesExactly | pkg/clash/transport/ssr/protocol/auth_sha1_v4.go:41-78 | the same of auth_sha1_v4, in terms of CRC32 and Adler32 |
| AuthLaws.Aes128Declines | pkg/clash/transport/ssr/protocol/auth_aes128_sha1.go:94-137 | what becomes of all other bytes: which error, in which order, and after which everything goes through raw |
| AuthLaws.Sha1V4Declines | pkg/clash/transport/ssr/protocol/auth_sha1_v4.go:41-78 | the same of auth_sha1_v4 |
| AuthLaws.RawGoesThrough | pkg/clash/transport/ssr/protocol/auth_sha1_v4.go:42-45 | after a refused frame all bytes come out as they are |
| AuthLaws.PiecesOfWrites | pkg/clash/transport/ssr/protocol/auth_chain_a.go:153-159 | writes are cut into pieces of 8100 bytes, or of 2800 by the chain protocols, and a shorter last one |
| AuthFrame.Encoder.PackData | pkg/clash/transport/ssr/protocol/auth_aes128_sha1.go:174-199 | appends exactly one frame and advances packID |
| AuthFrame.Encoder.Encode | pkg/clash/transport/ssr/protocol/auth_aes128_sha1.go:147-154 | appends the frames of all pieces of at most 8100 bytes |
| AuthFrame.Decoder.Decode | pkg/clash/transport/ssr/protocol/auth_aes128_sha1.go:94-137 | the loop over the buffers is the specified decoding, every error case included |
| AuthFrame.AuthConn.Read | pkg/clash/transport/ssr/protocol/stream.go:17-35 | one Read over the decoded and undecoded buffers is the specified step |
| XorShift.XorShift128Plus.Next | pkg/clash/transport/ssr/tools/random.go:14-22 | value and new state of the generator |
| XorShiftLaws.DrawIsInjective | pkg/clash/transport/ssr/tools/random.go:14-22 | no state of the generator follows two others |
| XorShiftLaws.Draws100 | pkg/clash/transport/ssr/tools/random.go:40-57 | what the generator draws, seeded with the bytes 0 to 15 and a length of 100 |
| XorShift.XorShift128Plus.InitFromBinAndLength | pkg/clash/transport/ssr/tools/random.go:40-57 | seeds the generator and overwrites the first two bytes of the caller's array with the length |
| XorStream.XorInvolution | pkg/clash/transport/ssr/protocol/auth_chain_a.go:134 | the key stream at the same position undoes itself |
| XorStream.XorByBit | pkg/clash/transport/ssr/protocol/auth_chain_a.go:134 | bit by bit, what comes out is data exclusive-or key stream |
| AuthChainSpec.RandLength | pkg/clash/transport/ssr/protocol/auth_chain_b.go:68-97 | padding is never negative and a frame of at most 2800 bytes of data stays under 4096, for both protocols |
| AuthChainSpec.RandLengthIgnores | pkg/clash/transport/ssr/tools/random.go:40-57 | the padding drawn depends on the hash from byte 2 on only, so looking again draws the same |
| ChainLaws.KnownPaddingA | pkg/clash/transport/ssr/protocol/auth_chain_a.go:286-302 | the padding auth_chain_a draws for a known digest and lengths, and where in it the data starts |
| ChainLaws.KnownPaddingB | pkg/clash/transport/ssr/protocol/auth_chain_b.go:68-97 | the padding auth_chain_b draws for a known digest: from the first table, from the second, none, and by the length |
| AuthChainSpec.PackLayout | pkg/clash/transport/ssr/protocol/auth_chain_a.go:245-284 | where length, padding, data and check of a frame lie |
| AuthLaws.ChainTakesExactly | pkg/clash/transport/ssr/protocol/auth_chain_a.go:96-144 | a chain frame is taken iff hidden length, limit and digest are right, told on the bytes; what is taken is the decrypted data, and which hash, number and key stream position follow |
| AuthLaws.ChainDeclines | pkg/clash/transport/ssr/protocol/auth_chain_a.go:96-144 | what becomes of all other bytes, error by error |
| AuthChainSpec.FrameOutcome | pkg/clash/transport/ssr/protocol/auth_chain_a.go:101-142 | what becomes of any frame packData makes, exactly: it waits iff it has no data, no padding and nothing behind it; it panics iff it is numbered 1 and has less than two bytes of data; else it is taken with its data, hash chain, number and key stream position aligned |
| AuthChainSpec.StepWaits | pkg/clash/transport/ssr/protocol/auth_chain_a.go:107-119 | a partial frame may reseed the generator and overwrite two hash bytes, and stays in step all the same |
| AuthChainSpec.AnyDataMayBeSent | pkg/clash/transport/ssr/protocol/auth_chain_a.go:153-159 | every piece of 1 to 2800 bytes (2 at least in a frame numbered 1) can be sent: what the stream theorems assume can always be met; Encode cuts no empty pieces |
| AuthChainSpec.BareFrame | pkg/clash/transport/ssr/protocol/auth_chain_a.go:101 | such a waiting frame occurs for certain tables, and is taken as soon as anything follows |
| AuthChainSpec.BareFrameOccurs | pkg/clash/transport/ssr/protocol/auth_chain_b.go:11-66 | tables of the smallest size, all fours, with the protocol's own overhead of 4, are such tables, for every key, hash and generator |
| AuthChainSpec.IsLockstep | pkg/clash/transport/ssr/protocol/auth_chain_a.go:96-144 | both chain protocols satisfy the reassembly laws |
| AuthChainSpec.StreamRoundTrip | pkg/clash/transport/ssr/protocol/auth_chain_a.go:96-161 | any pieces, any fragmentation: the data comes out in order, less two bytes of each frame numbered 1 |
| AuthChainSpec.AllComesOut | pkg/clash/transport/ssr/protocol/auth_chain_a.go:135-140 | frame numbers wrap at 2^32: all data comes out if and only if no frame is numbered 1 |
| AuthChainSpec.ConnRoundTrip | pkg/clash/transport/ssr/protocol/stream.go:17-35 | the same through Conn.Read at any time: no read fails, what was read is a prefix of the data, and all of it once all bytes are taken |
| AuthChainSpec.Fragmentation | pkg/clash/transport/ssr/protocol/auth_chain_a.go:96-144 | for every stream of bytes, sent by whomever, the cut into pieces changes neither output nor error nor rest, although each look at a partial frame changes the state |
| AuthChainSpec.PanicsExactly | pkg/clash/transport/ssr/protocol/auth_chain_a.go:135-136 | over any stream in any pieces Decode panics iff, after some whole frames, one numbered 1 passes the check with less than two bytes of data |
| AuthChainSpec.OneByteIsTooShort | pkg/clash/transport/ssr/protocol/auth_chain_a.go:135-136 | a frame that reaches it: one byte of data in a frame numbered 1 |
| AuthChain.DrawnIsTable | pkg/clash/transport/ssr/protocol/auth_chain_b.go:56-59 | a drawn and sorted table is sorted, a permutation of the draws, with entries below 1440 |
| ChainLaws.KnownTables | pkg/clash/transport/ssr/protocol/auth_chain_b.go:50-66 | the two tables of a known key, entry by entry |
| AuthChain.InitDataSize | pkg/clash/transport/ssr/protocol/auth_chain_b.go:50-66 | the two tables of a key: sorted, 4 to 11 and 8 to 23 entries |
| AuthChain.BinarySearch | pkg/clash/transport/ssr/protocol/auth_chain_b.go:73 | sort.Search on a sorted table finds the first entry that is at least x |
| AuthChain.DrawFromTables | pkg/clash/transport/ssr/protocol/auth_chain_b.go:73-97 | the draws of auth_chain_b in order, with the early returns |
| AuthChain.AuthChain.GetRandLength | pkg/clash/transport/ssr/protocol/auth_chain_a.go:286-301 | the padding length, the overwritten hash and the generator of both protocols |
| AuthChain.AuthChain.PackData | pkg/clash/transport/ssr/protocol/auth_chain_a.go:245-284 | appends one frame, moves the hash chain, and leaves the caller's bytes encrypted in place |
| AuthChain.AuthChain.Encode | pkg/clash/transport/ssr/protocol/auth_chain_a.go:153-159 | appends the frames of all pieces of at most 2800 bytes; the whole of the caller's array ends up encrypted |
| AuthChain.AuthChain.Decode | pkg/clash/transport/ssr/protocol/auth_chain_a.go:96-144 | the loop is the specified decoding, every error case included |
| Murmur3.AbsorbInPieces | pkg/clash/common/murmur3/murmur.go:19-44 | absorbing data in two pieces, with the tail carried over, is absorbing it at once |
| Murmur3.AnyPartition | pkg/clash/common/murmur3/murmur32.go:101-144 | for every seed and every partition into writes the sum is the one-shot hash of the whole |
| MurmurLaws.BlocksMatter | pkg/clash/common/murmur3/murmur32.go:101-144 | data that differ in one block only have different sums, under every seed |
| MurmurLaws.TailsMatter | pkg/clash/common/murmur3/murmur32.go:121-134 | data of one length that differ in the bytes after the last block only have different sums |
| MurmurLaws.SeedsMatter | pkg/clash/common/murmur3/murmur32.go:101-144 | under different seeds the same data have different sums |
| MurmurLaws.KnownSums | pkg/clash/common/murmur3/murmur32.go:101-144 | the sums every implementation gives for six inputs |
| Murmur3.Digest32.Bmix | pkg/clash/common/murmur3/murmur32.go:50-67 | absorbs the whole blocks of a slice and gives back the rest of it |
| Murmur3.Digest32.Write | pkg/clash/common/murmur3/murmur.go:19-44 | the digest stands for everything written so far, although the tail lives in the buffer it is appended to |
| Murmur3.Digest32.Sum32 | pkg/clash/common/murmur3/murmur32.go:69-97 | at any time the sum is the one-shot hash of what has been written, and nothing changes |
| Murmur3.Sum32WithSeed | pkg/clash/common/murmur3/murmur32.go:101-144 | the one-shot loop computes that hash |
| LoadBalance.RoundedIsForward | pkg/clash/adapter/outboundgroup/loadbalance.go:64 | whatever monotone rounding that keeps integers up to 2^53 is applied to quotient and product, the jump of the source goes forward from every bucket below 2^31 and fits an int64 |
| LoadBalance.ExactRounds | pkg/clash/adapter/outboundgroup/loadbalance.go:64 | computing exactly is one such rounding |
| LoadBalance.Consistent | pkg/clash/adapter/outboundgroup/loadbalance.go:58-68 | a bucket in range; one more bucket moves a key nowhere or to the new one; growing never moves a key between old buckets; for every forward jump |
| JumpBalance.HalfOfAllKeys | pkg/clash/adapter/outboundgroup/loadbalance.go:58-68 | without rounding, of two buckets the second gets exactly half of all 2^64 keys |
| JumpBalance.JumpCounts | pkg/clash/adapter/outboundgroup/loadbalance.go:64 | from bucket b, the numbers that jump to n or beyond are (b+1)*2^31/n of 2^31, rounded down |
| JumpBalance.KnownBuckets | pkg/clash/adapter/outboundgroup/loadbalance.go:58-68 | the buckets of four known keys; 32-bit keys do not all go to one |
| LoadBalance.ComputeJumpHash | pkg/clash/adapter/outboundgroup/loadbalance.go:58-68 | the loop ends and computes the bucket, in range for buckets >= 1; how evenly it deals out keys is what JumpBalance says |
| LoadBalance.GrowthKeepsChoice | pkg/clash/adapter/outboundgroup/loadbalance.go:117-139 | with live proxies added at the end a key whose first choice is alive stays or moves to one of the added |
| LoadBalance.ConsistentHashing | pkg/clash/adapter/outboundgroup/loadbalance.go:117-139 | five tries, then the first alive, then the first: an alive proxy whenever there is one |
| LoadBalance.TriesInTurn | pkg/clash/adapter/outboundgroup/loadbalance.go:117-139 | the tries are the buckets of key, key+1 and so on, five in all, until one is alive; then the first proxy alive |
| LoadBalance.RoundRobin.Pick | pkg/clash/adapter/outboundgroup/loadbalance.go:101-115 | the next alive proxy after the last pick, none skipped; the first of the list if none is alive |
| LoadBalance.EveryoneIsServed | pkg/clash/adapter/outboundgroup/loadbalance.go:101-115 | a proxy that is alive and d places ahead is among the next d picks |
| DualStack.StepKeepsInvariant | pkg/clash/component/dialer/dialer.go:111-182 | every step of a racer or of the collector keeps the protocol's invariant |
| DualStack.EveryRunIsSafe | pkg/clash/component/dialer/dialer.go:111-182 | in every interleaving: an error only when both racers failed, and the right one; a returned connection is open; no opened connection is out of reach |
| DualStack.NothingIsLeaked | pkg/clash/component/dialer/dialer.go:132-140 | when nothing can happen any more the call has returned and every opened connection is the one returned or closed |
| DualStack.RunsAreShort | pkg/clash/component/dialer/dialer.go:159-179 | every run ends, within seven steps |
| SingleFlight.StepKeepsInvariant | pkg/clash/common/singledo/singledo.go:28-55 | every critical section and every step outside keeps the invariant of the fields, calls and threads |
| SingleFlight.OneAtATime | pkg/clash/common/singledo/singledo.go:28-55 | in every interleaving at most one fn runs, and executions start at least wait apart |
| SingleFlight.ValuesAreGenuine | pkg/clash/common/singledo/singledo.go:28-55 | Do returns its own execution's value; or that of the call it joined, which had begun and was not yet published when it asked; or of one started less than wait before |
| SingleFlight.NilIsNeverRead | pkg/clash/common/singledo/singledo.go:31-34 | the result read outside the mutex is never nil |
| SingleFlight.NoDeadlock | pkg/clash/common/singledo/singledo.go:36-40 | while a thread is inside Do, some thread inside Do can go on |
| SingleFlight.EveryDoReturns | pkg/clash/common/singledo/singledo.go:28-55 | as long as fn returns, so does every Do: without new Dos at most two steps per thread are left, and when none is possible all have returned |
| SocksAddr.SplitTakesPrinted | pkg/clash/transport/socks5/socks5.go:305-331 | a printed address is taken off the front, whatever follows |
| SocksAddr.SplitGivesPrinted | pkg/clash/transport/socks5/socks5.go:305-331 | what is taken is a printed address: nothing else is accepted |
| SocksAddr.PrintedBytes | pkg/clash/transport/socks5/socks5.go:305-331 | a printed address byte by byte: type 1, 3 or 4, the address, before a host its length, the port high byte first |
| SocksAddr.ReadAddr | pkg/clash/transport/socks5/socks5.go:275-302 | reads exactly the address SplitAddr would take and leaves the rest unread; fails exactly if there is none |
| SocksAddr.PacketRoundTrip | pkg/clash/transport/socks5/socks5.go:415-455 | DecodeUDPPacket inverts EncodeUDPPacket |
| SocksAddr.DecodedIsEncoded | pkg/clash/transport/socks5/socks5.go:415-455 | a packet that decodes without error is the encoding of what it decodes to |
| SocksAddr.SerializesSocksAddr | pkg/clash/adapter/outbound/util.go:21-39 | the bytes are the RFC 1928 form of the address the metadata stands for, and all of them are an address exactly if there is one (host below 256 bytes, IP of 4 or 16) |
| SocksAddr.MetadataRoundTrip | pkg/clash/adapter/inbound/util.go:15-34 | for all metadata: parseSocksAddr inverts serializesSocksAddr iff the host is at most 252 bytes (or 253 with a port whose low byte is 3) without a trailing dot, or the IP has 4 or 16 bytes; it panics iff the host's length modulo 256 is 254 or 255, or the IP has another length |
| SocksAddr.ParsesExactly | pkg/clash/adapter/inbound/util.go:15-34 | what parseSocksAddr gives on any bytes, and exactly when it panics |

## Left out

- LruCache: operations one after the other; Set reads the clock before it takes the lock, so overlapping Sets can leave expiries out of order. No eviction callback, no CloneTo.
- Pool: CloneFrom, the skip list (ShouldSkipped) and the getters; keys of the two Go types are two constructors, so they never collide.
- FakeIPPool.New: the mask is given as the two numbers Mask.Size returns; an address of less than four bytes, on which the source panics, is not taken.
- Trie: the recursion of search is a method on objects; data is an Option, with None for nil.
- DagLoop.PeelOut: not the promise at utils.go:121 that only the loops remain, which the code does not keep; the contract says exactly what remains.
- ProxyGroups: the graph's nodes are values in a map that is replaced, where the source updates objects it shares by reference; topo is never read and has no counterpart; decoding errors carry no text.
- Framing: a Read or Write that fails on the underlying connection, and byte counts of partial writes.
- VmessAead, VmessChunk: the buffer pool is fresh arrays; the readers' leftover buffer is a sequence.
- ShadowAead: ReadFrom, WriteTo, salts and key derivation; ReadFrom seals an empty payload that read does not consume, so the stream theorem is about Write.
- AuthFrame, AuthChain: the header packet (packAuthData), which this repository does not decode, and the UDP packets; objects start where the header packet has set their hashes.
- AuthFrame.Decoder.Decode: the Go run-time panic is the outcome SliceOutOfRange, after which nothing more is said about the object; so it is in AuthChain.AuthChain.Decode.
- AuthChain.AuthChain.Decode: decrypts a copy of the data, where the source decrypts the buffer in place and then drops it.
- AuthChain.InitDataSize: sort.Ints is an insertion sort on sequences; the key has at least 16 bytes, as InitFromBin panics on less.
- Murmur3: loads are little-endian, as on the platforms the unsafe load is written for; a sum's bytes (Sum) and the overflow of clen.
- LoadBalance: publicsuffix and getKey; proxies are their Alive answers at one time, and fewer than 2^31.
- DualStack: SplitHostPort failing before the race, socket options, and contexts; a dial gives a connection or an error, not both.
- SingleFlight: Reset, which is not locked, and the reading of result.Val and result.Err as two separate loads.
- SocksAddr: ParseAddr and the string forms, and the handshakes.
- HTTP API, tunnel and NAT tables, DNS, other transports, listeners and platform code: I/O and plumbing around the parts above.
