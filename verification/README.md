# Proofs about the Monero block explorer

A Dafny 4.11 model of the parts of the explorer whose correctness is not visible from any one
function body, and proofs about them for all inputs and all runs.  `dafny verify dfyconfig.toml`
checks everything.

The model has four parts.

**Transaction extras.**  `TxExtra.Decode` says what a `tx_extra` blob means: fields up to the first
that fails, and where and why it failed.  `TxExtraParser.Parse` is the Rust decoder as it runs, over
one advancing position, and equals `Decode`; `OracleModel.Parse` is the Python decoder as it runs,
and equals it too, so the two programs agree on every byte string (`OracleModel.Differential`).
`TxExtra.Encode` is the canonical printer.  `RoundTrip` and `BlobTheorems` prove both directions of
the round trip, with the exact blobs that do not come back as they were, and that a failure early
in a blob, or bytes added after it, do not change what was read before; `FailureKinds` says what each
kind of failure means of the bytes.  `Varint` proves that the
bounded shift-and-or loop is a bijection with the printed numbers (unsigned LEB128, section 7.6 of
DWARF 5, less its padded encodings; a number cut off by the end of the blob is accepted).

**The cached source.**  `Caching.Cache` is the LRU cache with its fields updated in place;
`CacheRuns` proves what holds over any sequence of calls to it.  `SharedCache.Shared` is such a cache
while other requests use it between any two operations.  `ChainSource.Source` and `RingSource.Source`
are the calls that go through shared caches, proved against definitions that mention no cache at all.
`ReorgMachine` is a state machine in which block and transaction lookups are split into their steps
and the daemon's chain grows and reorganises between them; its lookups and stores are the very state
functions that the methods of `Caching.Cache` are proved to carry out, evictions included.
`ReorgSafety` proves what no run of it breaks, and `ReorgLimits` that each bound is exact, with runs
over chains of distinct blocks that keep their genesis.  `LookupProgress` proves that lookups get
answered and kept as the rules say, and `RangeTearing` is about a range of blocks whose headers and
bodies are read at different steps of such a run.

**Numbers as text.**  `Calendar` proves the closed-form date conversion against a calendar walked a
day at a time (leap rule of Appendix C and month lengths of section 5.7 of RFC 3339); `Hex` (base 16,
section 8 of RFC 4648), `Numerals`, `Printers` and `BlockIds` prove that printed values order and
read back as the values do, and `PrintedForms` what stands at each place of them.

**Handlers.**  `KAnonymity` is the band of accepted postfix lengths and the narrowed lookup, and
`PrivateLookup` says in plain numbers what it refuses, asks and answers; `Paging` is the wrapping page
arithmetic.

## Where the code and its comments differ

The model follows the code.

- `tx_extra.rs:301` says every field costs at least two bytes, and `tx_extra.rs:500` that two bytes
  is the smallest field.  A lone `00` is a one-byte field; `BlobTheorems.FieldCount` gives the true
  bound, 2 * fields <= consumed + 1, and exactly when the extra one is needed.
- `rpc_source.rs:254-265` trusts `depth` alone.  A block answered by hash from off the main chain,
  which the daemon marks with `orphan_status`, would be stored under a height of the main chain.
  `ReorgLimits.SafeExactlyWithinWindow` shows that the cache by height is right in every run
  exactly when the daemon does not do that and reorgs replace at most 60 blocks.
- `rpc_source.rs:310-313` keeps a transaction with 60 `confirmations` as buried.  The tip's transactions
  have one confirmation while the tip has depth 0 (`types.rs:284`, `handlers.rs:136`), so its block is
  59 below the tip, one less than `cache.rs:55` asks of a block.  A reorg of 60 blocks, which cached
  blocks survive, leaves a cached transaction at a height whose block does not hold it:
  `ReorgLimits.WindowReorgLosesTx`.  `ReorgLimits.TxSafeExactlyBelowWindow` shows that cached
  transactions are right in every run exactly when reorgs replace fewer than 60 blocks.
- `handlers.rs:860-864` promises that the documentation page lists the postfix lengths the endpoint
  accepts.  With a minimum of 1, which the configuration admits, a chain of 320 transactions lists the
  length 1, and every lookup of one character is refused as not being hex: it narrows to no whole byte
  (`types.rs:515`).  `KAnonymity.ListedIsServed` shows that a listed length is served exactly when it is
  two or more, `KAnonymity.SingleIsListed` when 1 is listed, and `KAnonymity.SingleIsRefused` the case.
- `handlers.rs:787-791` says the band has to be as wide as a factor of sixteen or some chain accepts no
  postfix.  The exact edge is one lower: the ceiling has to be at least sixteen times the floor less one
  (`KAnonymity.BandNeverEmptyExactly`).
- `types.rs:511` says the suffix must be lowercase; `from_hex_suffix` takes either case and lowers it.
- A last page with fewer blocks left than the limit is not partial, as the comment at
  `handlers.rs:486` has it: it starts at height 0 and repeats blocks of the page before it
  (`Paging.LastPageOverlaps`).
- `rpc_source.rs:349-358` presents the fan-out as the per-block loop in fewer calls.  The loop lists a
  transaction under every block that names it, the fan-out only under the first; `ChainSource.RangeAgrees`
  shows that they agree exactly when no known transaction is named by two blocks of the range.

## What is assumed

- The daemon's answers are consistent with one another (`ChainNode.Honest`): heights number the
  chain, a header agrees with its block, an entry has the hash it was asked for by, a block answered
  by hash and deeper than the reorg window is on the main chain.  `depth` and `confirmations` age,
  so answers are compared without them (`Stable`); beside that, each is shown to be word for word one
  the daemon gave now, or gave before and a cache kept.
- A list of transactions the daemon does not have (`missed_tx`) is exactly the unknown ones among the
  hashes of the request, in the order of the request, repeats included.
- In `ChainSource` the chain does not change during the comparison of the two forms; what a reorg
  between the calls of one range does is in `RangeTearing`.  Failing calls
  are allowed everywhere, and other requests may do anything to the caches that fits the same chain.
- In `ReorgMachine` a reorg replaces at most `deepest` blocks at the tip, never genesis, and never
  lowers the height, and orphans are answered or not, by parameter; the theorems say for which
  parameters.  Blocks known to the daemon have hashes of their own, and no transaction is in two
  blocks of one chain.
- `get_txids_loose` answers with the lowercase ids whose low bits match the template.
- `select_nth_unstable` is taken by its contract: the entry with exactly n smaller ones.
- Time is a number each caller passes in; a cache operation is one atomic step.

## Model

| member | source | states |
|---|---|---|
| `Varint.VarintBijection` | crates/explorer-core/src/tx_extra.rs:733-764 | a blob starts with a complete varint of value v and n bytes if and only if its first n bytes are what is printed for v; no printed varint is longer than ten bytes |
| `Varint.ReadVarint` | crates/explorer-core/src/tx_extra.rs:733-764 | the loop over shifts 0, 7, ... 63 reads what `Scan` says, status, value and position, advances at most ten bytes, and never reaches the return after the loop |
| `Varint.GroupFits` | crates/explorer-core/src/tx_extra.rs:742-755 | the bits added at each shift overlap none already there and none are shifted out of the word: or is addition |
| `Varint.TruncatedScan` | crates/explorer-core/src/tx_extra.rs:743-745 | a varint cut off by the end of the blob has at most nine bytes, and if its value is zero every one is 80 |
| `Varint.ScanOfContinuations` | crates/explorer-core/src/tx_extra.rs:743-745 | conversely, one to nine bytes 80 at the end of a blob read as a cut-off zero |
| `Varint.PushVarint` | crates/explorer-core/src/tx_extra.rs:2280-2290 | the printing loop appends the least-significant-group-first digits in base 128 |
| `Varint.VarintLen` | crates/explorer-core/src/tx_extra.rs:2292-2296 | the length is that of the printed text |
| `TxExtraParser.Parse` | crates/explorer-core/src/tx_extra.rs:498-537 | the decoder's loop returns `Decode`: fields, bytes consumed, error kind and error offset, for every blob |
| `TxExtraParser.ParseField` | crates/explorer-core/src/tx_extra.rs:541-683 | the dispatch on the tag decodes the suffix at `start`, with every position shifted by `start` |
| `TxExtraParser.ParsePadding` | crates/explorer-core/src/tx_extra.rs:552-570 | the counting loop is exactly: 1 to 255 zero bytes up to the end of the blob, else the position of the first offending byte |
| `TxExtraParser.ParsePubKey` | crates/explorer-core/src/tx_extra.rs:572-577 | 32 raw bytes or an error just past the tag |
| `TxExtraParser.ParseNonceOrMinerGate` | crates/explorer-core/src/tx_extra.rs:579-613 | length-prefixed bytes for both tags; only the nonce is capped, after its bytes are read |
| `TxExtraParser.ParseFrame` | crates/explorer-core/src/tx_extra.rs:580-602 | the length is compared before any cast, against zero bytes left once the varint is bad |
| `TxExtraParser.ParseMergeMining` | crates/explorer-core/src/tx_extra.rs:615-652 | the frame, then the blob; every failure inside the blob is reported past it |
| `TxExtraParser.ParseBlob` | crates/explorer-core/src/tx_extra.rs:642-650 | depth and root must fill the blob exactly |
| `TxExtraParser.ParseAdditional` | crates/explorer-core/src/tx_extra.rs:654-667 | the count is of keys and the guard is of bytes |
| `TxExtraParser.ParseKeys` | crates/explorer-core/src/tx_extra.rs:668-678 | the loop takes all the keys, or fails past the last whole one |
| `TxExtraParser.EncodeFields` | crates/explorer-core/src/tx_extra.rs:2299-2329 | the printing loop is `Encode`, for every list whose lengths fit in a u64 |
| `TxExtraParser.PushField` | crates/explorer-core/src/tx_extra.rs:2301-2326 | one field's text, tag first, appended |
| `RoundTrip.ForwardRoundTrip` | crates/explorer-core/src/tx_extra.rs:2424-2437 | every well-formed list reads back, complete and as it was, from its printed text |
| `RoundTrip.DecodeOfPrefix` | crates/explorer-core/src/tx_extra.rs:2299-2329 | a printed list with no padding reads off the front of any blob, and the rest reads as it would alone |
| `RoundTrip.FieldFaithful` | crates/explorer-core/src/tx_extra.rs:541-683 | each field that is read is well-formed and its bytes are its printed text, or it is a zero length cut off by the end of the blob |
| `RoundTrip.FieldOfPrinted` | crates/explorer-core/src/tx_extra.rs:541-683 | each printable field reads back from its text with anything after it; padding only at the end |
| `BlobTheorems.ExactInverse` | crates/explorer-core/src/tx_extra.rs:498-764 | for every blob the fields print as the bytes consumed if and only if the blob is not a printed one followed by a tag 02, de or 04 and one to nine bytes 80; the blobs that are, are complete |
| `BlobTheorems.CompleteInverse` | crates/explorer-core/src/tx_extra.rs:2372-2384 | printing what a complete parse returned gives the blob back if and only if it is not such a blob; otherwise it gives the printed part, the tag and 00 |
| `BlobTheorems.CutOffNeverComesBack` | crates/explorer-core/src/tx_extra.rs:2372-2374 | every printed blob without padding followed by such a tail parses completely and does not come back |
| `BlobTheorems.ShortestCutOff` | crates/explorer-core/src/tx_extra.rs:2372-2374 | the blob 02 80 is complete and prints as 02 00 |
| `BlobTheorems.PrintedIsItself` | crates/explorer-core/src/tx_extra.rs:2299-2329 | a blob is what the printer makes of some list without padding if and only if the fields read from it hold no padding and print as it |
| `BlobTheorems.CompletePrints` | crates/explorer-core/src/tx_extra.rs:2375-2384 | the same exception told by the decoded list: a zero-length last field and a last byte that is not zero |
| `BlobTheorems.CutOffPrints` | crates/explorer-core/src/tx_extra.rs:2372-2374 | the blobs that do not come back end in the tag and one to nine bytes 80, and print the same up to that tag |
| `BlobTheorems.DecodedPrints` | crates/explorer-core/src/tx_extra.rs:498-764 | for every blob, complete or not, the fields print as the consumed bytes or as the cut-off form of them |
| `BlobTheorems.IncompleteInverse` | crates/explorer-core/src/tx_extra.rs:498-537 | for an incomplete parse the consumed bytes are the printed fields, with no exception |
| `BlobTheorems.Reencodes` | crates/explorer-core/src/tx_extra.rs:2375-2384 | a complete parse survives printing and parsing again with the same fields |
| `BlobTheorems.FieldsWellFormed` | crates/explorer-core/src/tx_extra.rs:2350-2360 | every list returned is well-formed; a complete parse consumes everything and an incomplete one holds no padding |
| `BlobTheorems.FailureOffset` | crates/explorer-core/src/tx_extra.rs:151-163 | consumed <= offset <= length, and offset equals consumed exactly for an unknown tag |
| `FailureKinds.FailureIsTheFields` | crates/explorer-core/src/tx_extra.rs:510-533 | the error of a blob is the error of the field at which decoding stopped, its offset counted from the start of the blob |
| `FailureKinds.UnknownTagMeans` | crates/explorer-core/src/tx_extra.rs:681 | a field fails for its tag, carrying it and pointing at it, if and only if the tag is none of the six |
| `FailureKinds.PaddingMeans` | crates/explorer-core/src/tx_extra.rs:552-570 | padding fails at its first byte that is not zero, or at place 256 after 256 zeros, and in no other way |
| `FailureKinds.PubKeyMeans` | crates/explorer-core/src/tx_extra.rs:572-577 | a public key fails if and only if fewer than 32 bytes are left, just past the tag |
| `FailureKinds.FrameMeans` | crates/explorer-core/src/tx_extra.rs:579-652 | for the three length-prefixed tags, exactly when each kind is reported and where, from the length, the bytes left and what they hold |
| `FailureKinds.AdditionalMeans` | crates/explorer-core/src/tx_extra.rs:654-679 | for additional keys, exactly when each kind is reported, and that a list cut short is pointed at past its last whole key |
| `BlobTheorems.ConsumedDecodesWhole` | crates/explorer-core/src/tx_extra.rs:342-361 | the consumed part parses completely, to the same fields |
| `BlobTheorems.Locality` | crates/explorer-core/src/tx_extra.rs:498-537 | after a blob that prints as itself and has no padding, any bytes read as they would alone, with consumed and error offset shifted |
| `BlobTheorems.FieldCount` | crates/explorer-core/src/tx_extra.rs:299-304 | twice the number of fields is at most one more than the bytes consumed, and exceeds them exactly for the blobs that are pairs of a tag 02, 04 or de and 00, any number of them, then a lone 00 |
| `BlobTheorems.LoneZeroBeatsTwoBytes` | crates/explorer-core/src/tx_extra.rs:1291-1297 | the blob 00 is one complete field of one byte |
| `OracleModel.Parse` | tools/txextra-oracle/model.py:21-88 | the Python decoder's verdict and fields, for every blob, are those of `Decode` |
| `OracleModel.ReadVarint` | tools/txextra-oracle/model.py:5-19 | the Python loop, which has no bound on its shift, answers as the bounded one: same value, position and status |
| `OracleModel.OneField` | tools/txextra-oracle/model.py:27-85 | one turn of the Python loop decodes the same field or fails where the Rust arm fails |
| `OracleModel.Differential` | tools/txextra-oracle/model.py:21-88 | run side by side, the two decoders agree on completeness and on every field |
| `Caching.Cache.constructor` | crates/explorer-core/src/cache.rs:123-137 | an empty cache; capacity zero means one |
| `Caching.Cache.Get` | crates/explorer-core/src/cache.rs:140-171 | the whole new state: an expired entry is dropped, a hit becomes the most recent, one counter moves; the value found is the one stored |
| `Caching.Cache.EvictBatch` | crates/explorer-core/src/cache.rs:179-192 | rank selection and filter leave exactly the entries that have at least `capacity / 16`, or one, entries older than them |
| `Caching.Cache.Insert` | crates/explorer-core/src/cache.rs:197-219 | the whole new state, including the eviction of a batch when a new key finds the cache full |
| `Caching.Cache.Stats` | crates/explorer-core/src/cache.rs:221-236 | the number of entries never exceeds the capacity reported beside it |
| `Caching.EvictionIsExact` | crates/explorer-core/src/cache.rs:173-192 | an eviction removes exactly min(len, n) entries |
| `Caching.EvictionTakesOldest` | crates/explorer-core/src/cache.rs:173-192 | every entry removed is older than every entry kept |
| `Caching.CutIsSurvivors` | crates/explorer-core/src/cache.rs:186-191 | filtering by the selected stamp keeps exactly those entries |
| `Caching.GetKeepsSound` | crates/explorer-core/src/cache.rs:157-165 | lookups keep the stamps distinct and behind the clock and the size within capacity |
| `Caching.InsertKeepsSound` | crates/explorer-core/src/cache.rs:203-217 | insertions keep them too, evicting or not |
| `CacheRuns.RunIsSound` | crates/explorer-core/src/cache.rs:123-219 | both hold after any sequence of calls |
| `CacheRuns.HitIsLastInserted` | crates/explorer-core/src/cache.rs:140-171 | after any sequence of calls a hit is the value last inserted under that key, and less old than the expiry |
| `Caching.HitExactly` | crates/explorer-core/src/cache.rs:148-170 | a lookup hits if and only if the key is there and, in an expiring cache, was stored less than its time to live ago |
| `Caching.BatchSize` | crates/explorer-core/src/cache.rs:59-71 | a pass clears a sixteenth of the capacity, rounded down, and one entry in a cache of fewer than 32 |
| `CacheRuns.JustInserted` | crates/explorer-core/src/cache.rs:197-219 | after any calls, what was just inserted is found until it has lived its time, and not after |
| `CacheRuns.StatsAreTallies` | crates/explorer-core/src/cache.rs:157-170 | after any calls, hits are the lookups that found something and hits and misses together all lookups |
| `CacheRuns.LossNeedsTraffic` | crates/explorer-core/src/cache.rs:173-192 | a key disappears only by expiry at a lookup of it, or at an insertion of an absent key after at least capacity - max(capacity/16, 1) other keys were named since it was |
| `CacheRuns.Retention` | crates/explorer-core/src/cache.rs:173-192 | so a key just used is still there, with its value, after calls naming fewer other keys than that |
| `CacheRuns.Conservation` | crates/explorer-core/src/cache.rs:179-219 | over any run: absent keys inserted = entries held + dropped + expired, and each pass drops one whole batch from a full cache |
| `CacheRuns.AmortisedEviction` | crates/explorer-core/src/cache.rs:59-71 | e passes need capacity + 1 + (e - 1) * max(capacity/16, 1) insertions of absent keys, and scan at most 31 entries for each |
| `SharedCache.Shared.Lookup` | crates/explorer-core/src/cache.rs:140-171 | after any traffic of other requests, a hit is the entry now there, and every entry was there before or was stored by them; with no traffic, nothing but recency changes |
| `SharedCache.Shared.Store` | crates/explorer-core/src/cache.rs:197-219 | the key holds the value afterwards, and every other entry was there before or was stored by other requests, whatever was evicted |
| `TxOrder.KnownHashesSpec` | crates/explorer-core/src/rpc_source.rs:39-48 | the answer names the known hashes among those requested, each once |
| `TxOrder.KnownHashesOrder` | crates/explorer-core/src/rpc_source.rs:39-48 | in the order in which they were first requested |
| `TxOrder.InRequestedOrderSpec` | crates/explorer-core/src/rpc_source.rs:46-48 | draining the map while walking the request gives the entries of those hashes, in that order |
| `TxOrder.InRequestedOrderRestrict` | crates/explorer-core/src/rpc_source.rs:39-48 | the answer does not depend on which of two sources each entry came from, nor on the age of a cached one |
| `TxOrder.DistributeApart` | crates/explorer-core/src/rpc_source.rs:414-421 | handing out one drained map block by block gives each block its own answer if no known transaction is listed by two of them |
| `TxOrder.DistributeNeedsApart` | crates/explorer-core/src/rpc_source.rs:414-421 | and only if |
| `ChainSource.Source.Transactions` | crates/explorer-core/src/rpc_source.rs:271-325 | for any consistent cache contents and any split into 500-hash calls: the known ones among the requested, once each, in first-request order, and the text of every unknown one, whatever other requests do to the cache meanwhile.  Each entry is word for word the daemon's, or one held before or brought in by another request; with nobody else there and none held, all are the daemon's.  No request is longer than 500 hashes or, with nobody else there, names a cached one; with room to spare, what is cached afterwards is what was and the fetched transactions with 60 confirmations |
| `ChainSource.Source.FetchAll` | crates/explorer-core/src/rpc_source.rs:292-319 | the calls together learn exactly the known hashes among those asked for, and report exactly the others |
| `ChainSource.Source.Absorb` | crates/explorer-core/src/rpc_source.rs:306-317 | all of a response is used, and everything in the cache is confirmed and had 60 confirmations when fetched |
| `ChainSource.Source.GetBlock` | crates/explorer-core/src/rpc_source.rs:227-269 | the block the daemon has under that name; no call when it is found in the cache, and then word for word the block held or brought in; otherwise word for word the daemon's, depth included, and in the caches afterwards under its own hash, and under its height if buried; both caches stay consistent with the chain, and by height hold buried blocks only |
| `ChainSource.Source.HeadersRange` | crates/explorer-core/src/rpc_source.rs:332-345 | one call for the chain's own headers from `start` on: as many as the range has, a thousand at most |
| `ChainSource.Source.HashesOf` | crates/explorer-core/src/rpc_source.rs:374-402 | coinbase first, then the body's hashes, asked for only if the header counts any: the same list as from the whole block |
| `ChainSource.Source.BlocksInRange` | crates/explorer-core/src/rpc_source.rs:367-422 | a block for every height from `start` on, as many as the range has and a thousand at most, each with the chain's own header, depth included, and transactions that are word for word ones fetched, held or brought in; up to age the fan-out on the chain alone; it succeeds if no call fails, at a cost of at most `RangeCalls` |
| `ChainSource.Source.OneBlock` | crates/explorer-web/src/api/handlers.rs:182-206 | one block and its transactions, by two calls: header and list as the chain has them up to age, and word for word ones fetched, held or brought in |
| `ChainSource.Source.OneByOne` | crates/explorer-core/src/rpc_source.rs:347-358 | the block-by-block loop gives each block of the range on its own terms |
| `ChainSource.RangeAgrees` | crates/explorer-core/src/rpc_source.rs:347-422 | the fan-out and the loop give the same headers and the same transaction lists if and only if no known transaction is listed by two blocks of the range |
| `ChainSource.RangeCallsAre` | crates/explorer-core/src/rpc_source.rs:353-362 | the bound on the calls of a range is one, and one for each block whose header counts transactions, and one for each 500 hashes begun |
| `ChainNode.BlockHashesAre` | crates/explorer-core/src/rpc_source.rs:389-403 | the list of a block is its coinbase and then its transactions in the order of the block; a coinbase text that is no hash is left out |
| `ChainNode.UnknownSpec` | crates/explorer-core/src/rpc_source.rs:292-318 | the hashes reported missing are exactly those asked for that the daemon does not have |
| `TxOrder.StableEntries` | crates/explorer-core/src/rpc_source.rs:310-313 | two entries that agree but for age agree in everything but their confirmations |
| `ChainNode.StableBlocks` | crates/monerod-rpc/src/types.rs:275-285 | two blocks that agree but for age agree in everything but the depth in the header |
| `ChainSource.BothWays` | crates/explorer-core/src/rpc_source.rs:347-422 | run one after the other, from any consistent cache contents, the two forms answer alike whenever the lists are apart |
| `Rings.RingMembers` | crates/monerod-rpc/src/types.rs:1421-1432 | the running sum of the offsets with the input's own amount, or nothing if it passes 2^64 - 1 |
| `Rings.ResolvedShows` | crates/explorer-core/src/rpc_source.rs:521-608 | what answers are compared with, spelled out: amount and key image; unavailable if and only if some running sum of offsets is no output of that amount; otherwise a member for each offset, showing that sum and the height, key and transaction of that output |
| `Rings.KeyInputsAre` | crates/explorer-core/src/rpc_source.rs:625-632 | the key inputs alone are all kept, in order |
| `Rings.KeyInputsAppend` | crates/explorer-core/src/rpc_source.rs:625-632 | and of any list what is kept of its parts, one after the other |
| `Rings.OthersDropOut` | crates/explorer-core/src/rpc_source.rs:625-632 | an input without a ring counts for nothing wherever it stands |
| `Rings.AssembledIsResolved` | crates/explorer-core/src/rpc_source.rs:705-730 | a ring put together from what the batch learnt is the whole ring of that input, member by member |
| `RingSource.Source.ResolveRing` | crates/explorer-core/src/rpc_source.rs:521-608 | one input, spelled out member by member; a failed call changes only a ring that had to be asked for, to unavailable.  With nobody else there, a ring whose members are all cached costs no call, and with room to spare all members of a shown ring are cached afterwards |
| `RingSource.Source.ResolveRingsTogether` | crates/explorer-core/src/rpc_source.rs:660-732 | with other requests using the cache throughout: if it answers, every ring is what that input gets alone; it gives up only if some input is unusable or a call fails; one request, no output twice in it, none of them cached if nobody else is there, all of them cached afterwards if there is room |
| `RingSource.Source.Sieve` | crates/explorer-core/src/rpc_source.rs:672-687 | every distinct member is either known from the cache or wanted, and wanted once |
| `RingSource.Source.ResolveRings` | crates/explorer-core/src/rpc_source.rs:624-645 | in input order, every input gets what it would get alone, whatever its neighbours and the cache do; a transaction whose rings all resolve costs at most one call, any other at most one for each input and one more |
| `ReorgSafety.NeverWrongByHeight` | crates/explorer-core/src/cache.rs:35-57 | in every state of every run, each entry cached by height is the block now at that height of the main chain |
| `ReorgSafety.AnswerWasTrue` | crates/explorer-core/src/rpc_source.rs:227-269 | every answer, cache hits included, is the block asked for, and was on the main chain at its height at some moment before the call returned; by height, at some moment of the call itself |
| `ReorgSafety.StepKeepsInv` | crates/explorer-core/src/rpc_source.rs:227-269 | each step - growth, reorg, call, response, either store, failure, or any step of a transaction - keeps every cached and every waiting block buried past the window |
| `ReorgSafety.RunInvariant` | crates/explorer-core/src/rpc_source.rs:227-269 | and so does every run, with every call so far answered truthfully and every block cached by hash once on the main chain |
| `ReorgSafety.StepKeepsTxInv` | crates/explorer-core/src/rpc_source.rs:283-319 | each step keeps every cached and every received transaction with 60 confirmations in its block, 59 blocks below the tip or more |
| `ReorgSafety.TxNeverWrong` | crates/explorer-core/src/rpc_source.rs:305-317 | with reorgs of fewer than 60 blocks, in every state of every run each cached transaction is in the block it was taken from, still at the height it records |
| `ReorgSafety.FetchWasTrue` | crates/explorer-core/src/rpc_source.rs:283-325 | whatever reorgs there are: a served transaction, cache hits included, is the one asked for, and if confirmed it was in its block at its height, with so many confirmations to the tip, at some moment before |
| `LookupProgress.UncachedIsTaken` | crates/explorer-core/src/rpc_source.rs:227-252 | in any state, a block of the chain that is not cached is asked for and can be taken, by height or by hash, with the depth the chain gives it |
| `LookupProgress.CachedIsAnswered` | crates/explorer-core/src/rpc_source.rs:228-239 | one that is cached is answered as it is cached, and nothing is asked |
| `LookupProgress.TakenIsStored` | crates/explorer-core/src/rpc_source.rs:254-268 | what was taken is returned, held under its hash, and held under its height if its depth is 60 or more and otherwise not |
| `LookupProgress.UncachedTxIsTaken` | crates/explorer-core/src/rpc_source.rs:283-304 | a transaction of the chain that is not cached can be taken, with one confirmation for its block and one for each above |
| `LookupProgress.ReceivedIsServed` | crates/explorer-core/src/rpc_source.rs:306-317 | it is served as received and kept from 60 confirmations on; less confirmed or in the pool, it is not |
| `RangeTearing.WholeIfUnreached` | crates/explorer-core/src/rpc_source.rs:372-402 | the header and the body listed at a height are of one block if no reorg reaches that height between the headers and the end of the call, whatever the chain and the caches do above it |
| `RangeTearing.OneBlockReorgTears` | crates/explorer-core/src/rpc_source.rs:372-402 | the headers of two blocks taken, a reorg of the top one, and the list has the header of the old block with the body of the new |
| `RangeTearing.WholeExactlyWithoutReorgs` | crates/explorer-core/src/rpc_source.rs:372-402 | every range of every run lists whole blocks if and only if there are no reorgs at all, orphans not being answered |
| `ReorgLimits.SafeExactlyWithinWindow` | crates/explorer-core/src/cache.rs:35-57 | over chains of distinct blocks with a fixed genesis, every run is safe if and only if reorgs replace at most 60 blocks and by-hash answers are on the main chain |
| `ReorgLimits.TxSafeExactlyBelowWindow` | crates/explorer-core/src/rpc_source.rs:310-315 | over the same runs, cached transactions are right in every run if and only if reorgs replace fewer than 60 blocks, whether that is said of the block they were taken from or of the height they record |
| `ReorgLimits.WindowReorgLosesTx` | crates/explorer-core/src/rpc_source.rs:310-315 | a transaction kept with 60 confirmations, a reorg of 60 blocks, and the entry names a block without it |
| `ReorgLimits.DeeperReorgBreaks` | crates/explorer-core/src/cache.rs:30-35 | on a chain of 62 blocks, caching block 1 at depth 60 and replacing 61 blocks leaves a wrong entry |
| `ReorgLimits.OrphanBreaks` | crates/monerod-rpc/src/types.rs:276-285 | so does a run in which an orphan of block 1 is answered by hash, since its header's `orphan_status` is not looked at |
| `Calendar.CivilIsTheCalendar` | crates/explorer-core/src/fmt.rs:28-53 | day 0 is 1970-01-01, every day number gives a valid date, and the next day number gives the next date, for all integers |
| `Calendar.DayCount` | crates/explorer-core/src/fmt.rs:28-53 | walking n days from the date of any day number arrives at the date of that number plus n |
| `Calendar.CivilIsMonotone` | crates/explorer-core/src/fmt.rs:28-53 | later day numbers are later dates |
| `Calendar.EveryDateHasADay` | crates/explorer-core/src/fmt.rs:27-53 | every valid date is the date of some day number |
| `Calendar.YearOfEraCorrect` | crates/explorer-core/src/fmt.rs:32-34 | the year found by division is the one whose days hold the day |
| `Calendar.MonthLengths` | crates/explorer-core/src/fmt.rs:35-52 | the month formula's starts are the calendar's month lengths, leap February last |
| `Printers.TimestampOrder` | crates/explorer-core/src/fmt.rs:15-25 | timestamp texts sort as their seconds, clamped at the end of year 9999, and are equal only for equal clamped seconds |
| `PrintedForms.TimestampReadsBack` | crates/explorer-core/src/fmt.rs:15-25 | a timestamp has separators at places 4, 7, 10, 13 and 16 and digits elsewhere; read there, the date is a real one, the clock below 24:60:60, and date and clock are the second it was made from, up to the end of year 9999 |
| `Printers.Age` | crates/explorer-core/src/fmt.rs:99-120 | the stepwise subtraction gives the fields of the absolute difference |
| `Printers.AgeReadsBack` | crates/explorer-core/src/fmt.rs:86-120 | an age text in any of its three forms reads back as that difference |
| `PrintedForms.AgeForms` | crates/explorer-core/src/fmt.rs:86-120 | which of the three forms an age takes, how wide each part is, and the value of each part |
| `Printers.AmountsReadBack` | crates/explorer-core/src/amount.rs:38-55 | the full and the trimmed text of an amount both read back as the same u64 |
| `Printers.TrimmedReadsBack` | crates/explorer-core/src/amount.rs:47-55 | trimming zeros, and putting one back after a bare point, keeps the value |
| `PrintedForms.FullAmountForm` | crates/explorer-core/src/amount.rs:38-42 | whole XMR without leading zeros, a point, and twelve digits that are the remainder |
| `PrintedForms.TrimmedAmountForm` | crates/explorer-core/src/amount.rs:47-55 | the trimmed text is the full one less zeros off its end, as many as there are but for one place |
| `Numerals.DecimalOfDigits` | crates/explorer-core/src/fmt.rs:61-66 | every u64 prints as digits that are accepted and read back |
| `Hex.Encode` | crates/explorer-core/src/hex.rs:10-18 | the loop gives two lowercase digits for each byte, high first |
| `Hex.DecodeToSlice` | crates/explorer-core/src/hex.rs:21-31 | succeeds exactly on hex text of twice the buffer's length, and then the buffer holds the bytes; on a bad digit the bytes before it are written and the rest untouched; on a wrong length nothing is |
| `Hex.Decode` | crates/explorer-core/src/hex.rs:33-41 | odd lengths are refused by the rounding alone |
| `Hex.DecodingOfEncoding` | crates/explorer-core/src/hex.rs:10-41 | decoding undoes encoding |
| `Hex.EncodingOfDecoding` | crates/explorer-core/src/hex.rs:20-72 | decoding accepts exactly even-length hex of either case, and encoding gives it back in lowercase |
| `Hex.HashRoundTrip` | crates/explorer-core/src/hash.rs:51-81 | a hash reads back from its text, and a text reads as that hash if and only if it is its text up to case |
| `Hex.HashErrors` | crates/explorer-core/src/hash.rs:54-71 | which texts are hashes, and for the others whether the length or the alphabet is blamed |
| `BlockIds.DisplayRoundTrip` | crates/explorer-core/src/chain.rs:44-69 | a block id reads back from its text if and only if it is a hash or a height below 10^8; a height above is not recognised |
| `BlockIds.ParseMeans` | crates/explorer-core/src/chain.rs:47-59 | exactly which texts mean which id: up to eight digits, or 64 hex characters of either case |
| `BlockIds.ParseErrors` | crates/explorer-core/src/chain.rs:47-59 | which of the three errors each other text gets |
| `KAnonymity.AcceptanceIsByLength` | crates/explorer-web/src/api/handlers.rs:833-858 | the check passes a postfix if and only if it is hex and its length is in the band, so it passes the letter a so many times over exactly when it passes any hex text of that length |
| `KAnonymity.ListedIsServed` | crates/explorer-web/src/api/handlers.rs:860-878 | for every length the page lists: all hex texts of it are answered with their transactions or with too many, if and only if it is two or more |
| `KAnonymity.SingleIsListed` | crates/explorer-web/src/api/handlers.rs:874-878 | length 1 is listed if and only if the configuration admits it and the chain has 320 to 16015 transactions |
| `KAnonymity.SingleIsRefused` | crates/explorer-web/src/api/handlers.rs:945-947 | on 320 transactions with a minimum of 1, length 1 is listed and the postfix a is refused as not hex |
| `KAnonymity.BandAroundLongest` | crates/explorer-web/src/api/handlers.rs:783-796 | with a ceiling at least sixteen times the floor, the longest anonymous length is always within the ceiling, and with less than 256 times the only other one can be the length before it |
| `KAnonymity.BandNeverEmptyExactly` | crates/explorer-web/src/api/handlers.rs:783-796 | every chain with at least the floor of transactions has a length in the band if and only if the ceiling is at least sixteen times the floor less one |
| `KAnonymity.LongestExists` | crates/explorer-web/src/api/handlers.rs:744-757 | on a chain with enough transactions there is a longest anonymous length, below 16 |
| `KAnonymity.AcceptedLengths` | crates/explorer-web/src/api/handlers.rs:866-878 | the lengths listed, for every chain size and configuration: the longest anonymous one if configured, at most the one before it, no other |
| `KAnonymity.TooFewTransactions` | crates/explorer-web/src/api/handlers.rs:842-849 | on a chain with fewer than twenty transactions no length is accepted |
| `KAnonymity.PostfixMatches` | crates/explorer-web/src/api/handlers.rs:880-891 | every hash that ends with the postfix matches the template narrowed to whole trailing bytes |
| `KAnonymity.TemplateTail` | crates/monerod-rpc/src/types.rs:514-531 | the padded template is a hash whose last bytes are the suffix's |
| `KAnonymity.LooseIsExact` | crates/explorer-web/src/api/handlers.rs:937-964 | narrowing and then filtering the daemon's matches leaves exactly the hashes with the postfix, in order |
| `KAnonymity.LookupIsExact` | crates/explorer-web/src/api/handlers.rs:899-971 | the handler, for every accepted argument of two characters or more and any case: exactly those hashes, or refusal above 1000; a single character is refused |
| `PrivateLookup.RefusedExactly` | crates/explorer-web/src/api/handlers.rs:833-935 | the handler refuses if and only if the argument is not hexadecimal, not within the configured lengths, or its expected matches, the chain's transactions over sixteen to its length, are not from 20 to 1000 |
| `PrivateLookup.RefusedWhy` | crates/explorer-web/src/api/handlers.rs:833-935 | which of the four refusals it is: the length first, then the alphabet, then fewer than 20, then more than 1000 |
| `PrivateLookup.NamingOneIsRefused` | crates/explorer-web/src/api/handlers.rs:842-849 | ten characters on a chain of 134,875 transactions are too long to be anonymous, whatever they match |
| `PrivateLookup.RequestIsWide` | crates/monerod-rpc/src/types.rs:514-531 | which suffixes make a request, and that it is 64 characters ending in the suffix with four bits for each of its characters |
| `PrivateLookup.TemplateMeans` | crates/explorer-web/src/api/handlers.rs:937-957 | a hash matches the request if and only if its text ends with the narrowed suffix |
| `PrivateLookup.LooseMeans` | crates/explorer-web/src/api/handlers.rs:949-957 | so before the filter the daemon gives exactly the hashes that end with the narrowed suffix, in order |
| `PrivateLookup.EndingWithSpec` | crates/explorer-web/src/api/handlers.rs:958-964 | the hashes answered are those whose text is something followed by the postfix |
| `Paging.ServedRange` | crates/explorer-web/src/api/handlers.rs:431-442 | for every page number, wrapped or not: a range served lies on the chain, spans at most the limit, and is short of it only at the tip |
| `Paging.PageStartNoWrap` | crates/explorer-web/src/api/handlers.rs:428-439 | a page starts the expected distance from the tip, or at zero, as long as that distance is at most 2^63 more than the height |
| `Paging.NoWrapIsExact` | crates/explorer-web/src/api/handlers.rs:428-439 | and for every larger distance, up to where it has gone round 2^64 once, it does not |
| `Paging.PagesCover` | crates/explorer-web/src/api/handlers.rs:486-493 | every height is on one of the pages a client is told of |
| `Paging.TotalPagesExactly` | crates/explorer-web/src/api/handlers.rs:486-493 | the pages counted are the fewest that hold all rows, and none for no rows or a limit of zero |
| `Paging.FullPagesTile` | crates/explorer-web/src/api/handlers.rs:431-439 | full pages are disjoint and follow one another without a gap |
| `Paging.LastPageOverlaps` | crates/explorer-web/src/api/handlers.rs:431-439 | a last page with less left repeats, from the page before it, exactly what it takes to fill it |
| `Paging.FarPageWraps` | crates/explorer-web/src/api/handlers.rs:428-439 | two pages whose distance in rows is a multiple of 2^64 are the same page, for every limit and chain |
| `Paging.FirstPageReturns` | crates/explorer-web/src/api/handlers.rs:428-431 | with 32 to a page, page 2^59 is page 0 |
| `Paging.PoolPagesPrefix` | crates/explorer-web/src/api/handlers.rs:524-535 | the first n pool pages, laid end to end, are the first n * limit pool entries |
| `Paging.PoolPagesCover` | crates/explorer-web/src/api/handlers.rs:554-561 | all the pages counted, laid end to end, are the whole pool |

## Left out

- HTTP, TLS, timeouts, routing, middleware, JSON shapes, templates and the age strip: framework and I/O.
- JSON decoding of the daemon's answers and the RingCT dispatch: field defaults and one-branch facts.
- Header, block and transaction fields that no modelled branch reads: carried as one opaque text each.
- The `ParsedTxExtra` accessors and payment ids: one filter each over the fields proved here.
- Error texts, `classify_block_error` and the `NotHex` character: a failing call is one outcome, and hash parsing says only which check failed.
- The semaphore, lock poisoning and shared pointers: a cache operation is one atomic step, and values are copied.
- `join_all`: the calls of one request are made one after another, in order; other requests interleave with them.
- `info` with its five-second cache, fee estimates, alternative chains and pool statistics: calls passed straight through.
- `TxFacts`, `newest_first`, `unexpanded_inputs`, `total_transactions`, `PageQuery::parse`, configuration: single folds and single branches.
- Pool entries that do not decode are skipped by the mempool handler after paging; the pages here are the entries before that.
- A daemon without `get_txids_loose`, and the fetch of the matching transactions, which is `ChainSource.Source.Transactions`.
- The order in which a hash map lists its entries: nothing modelled depends on it.
- Blobs longer than a u64 can count: `TxExtraParser.EncodeFields` takes lists whose lengths fit.
- The C++ oracle, fuzz drivers and fixtures: harness only.
- Caching.Cache.SelectNth: stands for the library's selection by its contract, not by its algorithm.
