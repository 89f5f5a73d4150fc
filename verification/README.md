# Verified decision cores of a federated messaging client

The client keeps replicas of several data sets on machines that meet rarely and
through peers it does not fully trust. Between the transport and the user
interface sit a few small modules that only decide: what two peers must exchange
to agree on a channel's history, when a relayed fleet entry may be forgotten,
which address rows survive, which committee beacons to serve, which files to pin,
what bytes a ceremony id is hashed from, and when a catch-up driver may ask again.
This project models those modules in Dafny and proves what their comments promise.

`dafny verify dfyconfig.toml` checks everything.

## How the model is laid out

| Files | Subject |
|---|---|
| `Prelude.dfy` | machine integers, `Option`, `Result`, the hybrid clock, sequence facts |
| `Fingerprint.dfy`, `ReconcileKey.dfy` | the byte arithmetic of range fingerprints; keys, their order, sorted event sets |
| `Rbsr.dfy` | the reconciliation protocol as the code runs it, loop by loop |
| `RbsrSpans.dfy`, `RbsrRun.dfy` | the same protocol as rounds over live key ranges; exactness, conservation, round bounds |
| `RbsrPartition.dfy`, `RbsrCost.dfy`, `RbsrReconcile.dfy` | message validity, wire cost, whole runs with and without ingestion |
| `ChunkIndex.dfy`, `ChunkBuild.dfy` | the chunk-summary cache of fingerprints, and which chunks it makes |
| `FleetIntro.dfy`, `FleetRun.dfy`, `FleetConverge.dfy` | the fleet relay document, its transition system, its convergence |
| `AddressBook.dfy`, `AddressBookUpsert.dfy`, `AddressBookRun.dfy`, `AddressBookSnapshot.dfy` | the address book, what one upsert does, its runs, its bounded snapshot |
| `CatchupBeacons.dfy`, `CatchupPaging.dfy`, `CatchupTies.dfy`, `CatchupSelect.dfy` | committee catch-up: what is served, paging without and with ties, the whole reply |
| `PinPlanner.dfy`, `PinPlannerWalk.dfy`, `PinPlannerSafety.dfy` | the buddy-pin planner: its loops, what its walk comes to, what every plan keeps |
| `CeremonyId.dfy` | ceremony-id preimages |
| `BackfillDriver.dfy`, `BackfillLaws.dfy` | the backfill driver: its machine, floor and cooldown; its backoff, wake-ups and stops |

Code that loops over buffers or updates fields is a method or a class with its
loops; each is proved equal to a function of its inputs or of the old state, and
the promises are proved about that function. Hashes, seals, decoders, the relay
call, the ledger's answers and the clock are parameters, so every theorem holds
for all of them. Nothing about collisions is assumed unless a lemma says so, and
then only about the ranges that one run compares.

## What the proofs found

Each of these is a statement in the project, with the condition under which the
code does meet the promise.

* The upper sentinel `max_key()` is documented as greater than any real key. A key
  whose wall time is the largest u64, whose logical time is the largest u32 and whose
  device id extends the sentinel's is greater, and such a key is never reconciled.
  Reconciliation is exact if and only if no key the requester lacks reaches the
  sentinel (`RbsrRun.ReconciliationExact`, `RbsrRun.KeyBeyondUniverse`). Admission
  rejects that wall time with `FutureSkew` whenever the receiver has a clock
  (`src-tauri/src/community_channel_log.rs:1488-1510`), so only the apply-all fallback
  without one lets such a key in.
* A reply holds at most `3D + 1` ranges, with `D` the size of the symmetric
  difference; requests hold at most `2D + 1` (`RbsrCost.ExchangeLengths`).
* A merge is described as safe because one key always carries one signed event. That
  is exactly the condition: acknowledgements are sound per event in every run if and
  only if the deposits allowed under one key never differ
  (`FleetRun.EventsKeptIffOneEventPerKey`). Intros meet it. Retirements do not: they are
  signed by whichever device deposits first, with a random id, so two devices can hold
  different events under one key, and an acknowledgement merged from one then stands
  beside the other's event (`FleetRun.RetireAcksWrongEvent`). Acknowledgements are sound
  per key always (`FleetRun.RunHonest`).
* The fleet does converge without tombstones, in two exchanges. One exchange suffices
  exactly when, after the first sweep, every device has acknowledged some copy of every
  entry still held (`FleetConverge.OneExchangeSuffices`).
* Convergence lasts while nothing is deposited. The deposit task looks at the document
  and not at history, so after the schedule has emptied the fleet its next pass leaves it
  empty exactly when nothing can be signed there, and otherwise brings every signable
  retirement back without acknowledgements (`FleetConverge.DepositsRestart`).
* When more rows never seal to fewer bytes, a snapshot reply is over the byte cap
  exactly when the sealed empty set is, despite the comment "never an over-cap packet"
  (`AddressBookSnapshot.ServesLongest`, `AddressBookSnapshot.EmptySetCanExceedCap`). The
  production cap of 1 MiB (`src-tauri/src/address_book_sync.rs:47`) is far above the
  sealed overhead.
* The planner compares saturated sums. A budget or a pledge equal to the largest
  64-bit value is therefore no limit; every smaller one is kept in every plan
  (`PinPlannerSafety.BudgetSafeIffNotMax`, `PinPlannerSafety.PledgeSafeIffNotMax`).
* Tied beacons are always served, whatever the watermark, and they raise it. Once a
  requester holds a tied beacon, an untied one that its first reply left out and that is
  not later is never served again (`CatchupTies.BelowATieIsLost`). The log of
  `select_catchup_cap_never_splits_tied_group_zeb1036`
  (`src-tauri/src/community_dfrost_catchup.rs:1831-1861`) is an instance: the reply is
  the first old beacon and the tied pair, and the second old beacon is unreachable from
  then on (`CatchupTies.SecondOldIsLost`). For every log, paging brings the requester
  every beacon if and only if all of them fit one reply, or fewer than the cap are tied,
  every untied beacon beyond the first page (what the tied ones leave of the cap) is
  later than every tied one, and no two untied beacons on either side of a page boundary
  share a clock (`CatchupTies.PagingEndsIff`, `CatchupTies.PagingExact`).
* `first_resync_deadline` is said to lie in the future. `BackfillDriver.FirstResyncDeadline`
  states exactly when it does. An overdue channel whose interval drew no jitter, which
  the random draw can give, is due at once (`BackfillDriver.OverdueWithoutJitterIsNow`).
* `cooldown_wait` returns true when the shutdown watch is notified and its value is false.
  `BackfillDriver.CooldownHoldsIffNoEarlyEnd` says which notifications matter: a run is
  safe at every point, whatever follows, if and only if none arrives while the driver
  cools down and the cooldown has not passed. Notifications while the driver is parked or
  backing off are harmless. The one production sender sends only `true`
  (`src-tauri/src/community_channel_log_engine.rs:3247`), so it never triggers this.

## Model

| member | source | states |
|---|---|---|
| `Fingerprint.AddMod256InPlace` | src-tauri/src/channel_rbsr.rs:59-68 | the in-place ripple-carry loop leaves the little-endian sum modulo 2^256 in the accumulator |
| `Fingerprint.RippleAddIsModular` | src-tauri/src/channel_rbsr.rs:59-68 | byte-wise addition with a dropped final carry denotes (a + b) mod 256^n, for strings of any length |
| `Fingerprint.RippleAddAssociates` | src-tauri/src/channel_rbsr.rs:48-52 | byte-wise addition associates, carries included |
| `Fingerprint.EncodeLeb128` | src-tauri/src/channel_rbsr.rs:70-84 | the shift loop emits the unsigned LEB128 encoding (section 7.6 of DWARF Version 5) |
| `Fingerprint.Leb128RoundTrip` | src-tauri/src/channel_rbsr.rs:70-84 | decoding an encoding returns the number and whatever bytes followed it |
| `Fingerprint.Leb128IsCanonical` | src-tauri/src/channel_rbsr.rs:70-84 | the encoding is the shortest one: continuation bits on all bytes but the last, and no padding zero |
| `Fingerprint.CombineCommutes` | src-tauri/src/channel_rbsr.rs:99-106 | combining fingerprints commutes |
| `Fingerprint.CombineAssociates` | src-tauri/src/channel_rbsr.rs:99-106 | combining fingerprints associates |
| `Fingerprint.CombineZero` | src-tauri/src/channel_rbsr.rs:87-106 | the zero fingerprint is neutral |
| `Fingerprint.FoldAllSplits` | src-tauri/src/channel_rbsr.rs:48-52 | the fingerprint of any split of a range is the combination of the parts' fingerprints |
| `Fingerprint.FoldAllCounts` | src-tauri/src/channel_rbsr.rs:94-97 | the count component is the number of folded elements |
| `Fingerprint.FoldAllSums` | src-tauri/src/channel_rbsr.rs:40-68 | `raw_sum` denotes the sum of the folded hashes modulo 2^256 |
| `Fingerprint.PreimageSummarises` | src-tauri/src/channel_rbsr.rs:108-112 | what is hashed is 32 bytes that denote the sum modulo 2^256, then the shortest LEB128 encoding of the number of hashes |
| `Fingerprint.FinalizeIsDigest` | src-tauri/src/channel_rbsr.rs:108-116 | a finalized fingerprint is the first 16 bytes of the hash of that string |
| `Fingerprint.PreimageInjective` | src-tauri/src/channel_rbsr.rs:108-116 | `raw_sum` followed by the encoded count determines both, so only a hash collision confuses two fingerprints |
| `ReconcileKey.KeyOrder` | src-tauri/src/channel_rbsr.rs:14-31 | keys are strictly totally ordered by wall time, logical time, device bytes and hash |
| `ReconcileKey.MinKeyLeast` | src-tauri/src/channel_rbsr.rs:19-25 | no key lies below the lower sentinel |
| `ReconcileKey.SliceMember` | src-tauri/src/channel_rbsr.rs:151-158 | the two partition points cut out exactly the entries of the half-open range; an inverted range is empty |
| `ReconcileKey.FromUnsortedSpec` | src-tauri/src/channel_rbsr.rs:145-149 | sorting and deduplicating keeps exactly the first entry of every key |
| `ReconcileKey.InsertCommutes` | src-tauri/src/community_channel_log.rs:2858-2873 | the set after two insertions does not depend on their order |
| `Rbsr.RangeFingerprintLoop` | src-tauri/src/channel_rbsr.rs:161-168 | the fold loop computes the fingerprint of exactly the range's entries, and the digest messages carry of it is the first 16 bytes of the hash of their hash sum and count |
| `Rbsr.CheckHave` | src-tauri/src/channel_rbsr.rs:269-289 | accepts exactly the strictly ascending in-range key lists, and otherwise reports the first offending key's error |
| `Rbsr.ValidateMessage` | src-tauri/src/channel_rbsr.rs:257-298 | accepts exactly the version-1 partitions of `[min_key, max_key)` with canonical leaf lists, and otherwise reports the error of the first offending range |
| `Rbsr.RespondLoop` | src-tauri/src/channel_rbsr.rs:340-395 | the responder's loop with its moving lower bound computes the reply function |
| `Rbsr.RespondStep` | src-tauri/src/channel_rbsr.rs:347-392 | one range becomes a skip, a leaf list or two halves, pushed with coalescing |
| `Rbsr.ProcessReplyLoop` | src-tauri/src/channel_rbsr.rs:401-444 | the requester's loop computes the missing keys and the next request |
| `Rbsr.ProcessStep` | src-tauri/src/channel_rbsr.rs:410-433 | one reply range yields its missing keys and its place in the next request |
| `Rbsr.LackingLoop` | src-tauri/src/channel_rbsr.rs:413-421 | a leaf list minus the local keys, in list order |
| `RbsrSpans.ItemsPushAll` | src-tauri/src/channel_rbsr.rs:302-320 | coalescing skips changes neither what the other ranges say nor where any of them starts |
| `RbsrSpans.InitialAsks` | src-tauri/src/channel_rbsr.rs:323-333 | the initial request asks about the whole universe |
| `RbsrSpans.RespondRangeDecided` | src-tauri/src/channel_rbsr.rs:335-392 | for any incoming range, also of a dishonest peer: a skip when nothing is compared or the digests agree, else the keys of at most 16 entries, else the digests of the two halves of its entries |
| `RbsrSpans.RoundRefines` | src-tauri/src/channel_rbsr.rs:340-444 | one reply and its processing are one round over live ranges, also when the requester's set grew in ranges no longer bisected |
| `RbsrRun.NextHalves` | src-tauri/src/channel_rbsr.rs:178-185 | a round at least halves the largest live range and ends the run at the leaf threshold |
| `RbsrRun.LiveRangesHalve` | src-tauri/src/channel_rbsr.rs:340-395 | in round r every live range holds at most ceil(n / 2^(r-1)) responder keys |
| `RbsrRun.RoundBound` | src-tauri/src/channel_rbsr.rs:33-37 | a run ends within r rounds once n is at most LEAF_THRESHOLD * 2^(r-1), whatever collides |
| `RbsrRun.RoundCapSuffices` | src-tauri/src/channel_rbsr.rs:35-37 | 32 rounds suffice for every responder set of up to 2^35 keys |
| `RbsrRun.RunConserves` | src-tauri/src/channel_rbsr.rs:340-444 | over any run, deliveries of a key plus the times collisions hid it equal the wanted occurrences it started with |
| `RbsrRun.DeliveredExactly` | src-tauri/src/channel_rbsr.rs:322-444 | with no assumption on digests, a key is delivered once or not at all, and which of the two is decided exactly |
| `RbsrRun.ReconciliationExact` | src-tauri/src/channel_rbsr.rs:322-444 | without colliding comparisons a run delivers exactly the responder's keys the requester lacks, each once, if and only if none of them reaches the upper sentinel |
| `RbsrRun.OrdinaryKeysDelivered` | src-tauri/src/channel_rbsr.rs:26-31 | without colliding comparisons a run is exact whenever no key of the responder has both its wall and its logical time at their largest |
| `RbsrRun.KeyBeyondUniverse` | src-tauri/src/channel_rbsr.rs:26-31 | a key above the sentinel that is wanted and never delivered |
| `RbsrPartition.InitialRequestValid` | src-tauri/src/channel_rbsr.rs:322-333 | the initial request passes validation |
| `RbsrPartition.HaveCanonical` | src-tauri/src/channel_rbsr.rs:174-176 | the keys a responder emits for a range are a canonical leaf list |
| `RbsrPartition.RespondPreservesPartition` | src-tauri/src/channel_rbsr.rs:340-395 | the reply to any valid request is valid, through bisection and skip coalescing |
| `RbsrPartition.NextRequestPreservesPartition` | src-tauri/src/channel_rbsr.rs:401-444 | the next request built from any valid reply is valid |
| `RbsrPartition.MessagesTruthful` | src-tauri/src/channel_rbsr.rs:300-320 | each range's positional lower bound is the one its fingerprint or key list was computed over |
| `RbsrCost.HaveFollowsDifference` | src-tauri/src/channel_rbsr.rs:335-395 | all leaf lists of a run carry at most LEAF_THRESHOLD keys per element of the symmetric difference |
| `RbsrCost.ExchangeLengths` | src-tauri/src/channel_rbsr.rs:302-444 | replies have at most 3D+1 ranges and next requests at most 2D+1, with D the difference still live |
| `RbsrReconcile.Reconcile` | src-tauri/src/channel_rbsr.rs:767-787 | the run loop: rounds and deliveries as above, every exchanged message valid and within its length, round cap kept, exact when nothing collides |
| `RbsrReconcile.ReconcileIngesting` | src-tauri/src/community_channel_log_engine.rs:2200-2260 | a requester that ingests between rounds takes the same rounds and ends with its own keys and exactly what the other run delivers |
| `RbsrReconcile.ReplyEventsAreShipped` | src-tauri/src/community_channel_log.rs:2879-2921 | the inline events sent with a reply are the events of its leaf ranges |
| `RbsrReconcile.IngestOrderIrrelevant` | src-tauri/src/community_channel_log.rs:2896-2920 | the log after ingesting a reply does not depend on the order its events arrive in |
| `ChunkIndexing.BuildFromSorted` | src-tauri/src/channel_chunk_index.rs:57-87 | the accumulator loop yields one summary per boundary-delimited chunk |
| `ChunkBuild.BoundaryIsZeroByte` | src-tauri/src/channel_chunk_index.rs:25-33 | a hash ends a chunk exactly when its first byte is zero |
| `ChunkBuild.ChunksAreStretches` | src-tauri/src/channel_chunk_index.rs:57-87 | the chunks are the stretches between consecutive boundaries, in order, each with the first and last key, the number and the hash sum of its entries |
| `ChunkIndexing.ChunkIndex.RangeFingerprint` | src-tauri/src/channel_chunk_index.rs:98-123 | for every pair of bounds the indexed fingerprint equals the naive fold over the set, reading the events of at most two chunks |
| `ChunkIndexing.ChunkIndex.Insert` | src-tauri/src/channel_chunk_index.rs:129-150 | inserting leaves the chunks a full rebuild would give, for any key and for a reader that sees the log before or after the append |
| `ChunkIndexing.InsertRechunks` | src-tauri/src/channel_chunk_index.rs:125-150 | re-chunking one chunk's window and splicing it in equals rebuilding the whole set |
| `ChunkIndexing.FilterIsSlice` | src-tauri/src/channel_chunk_index.rs:114-119 | filtering by both bounds is the sorted set's slice |
| `ChunkIndexing.IndexIsCanonical` | src-tauri/src/channel_chunk_index.rs:125-150 | the index depends only on which events arrived, not on order or repetition |
| `FleetIntro.IntroKeyInjective` | src-tauri/src/community_device_intro_crdt.rs:71-78 | community and device determine an intro key and conversely |
| `FleetIntro.RetireKeyCollides` | src-tauri/src/community_device_intro_crdt.rs:80-87 | exactly when a retire key equals an intro key |
| `FleetIntro.KeyLayout` | src-tauri/src/community_device_intro_crdt.rs:71-87 | a key is 32 lower-case hex digits of the community, a colon and the device; a retire key adds ":r" |
| `FleetIntro.IntroDoc.MergeFrom` | src-tauri/src/community_device_intro_crdt.rs:97-116 | the merge inserts new entries whole, unions acknowledgements of known ones, and reports a change exactly when the document changed |
| `FleetIntro.IntroDoc.MergeOne` | src-tauri/src/community_device_intro_crdt.rs:100-113 | the effect and the change flag of one remote entry |
| `FleetIntro.IntroDoc.IngestPending` | src-tauri/src/community_device_intro_ingest.rs:97-173 | one sweep: acknowledgements for the relays that succeeded, removal of what was covered at the start or expired, and the change flag |
| `FleetIntro.IntroDoc.RelayPending` | src-tauri/src/community_device_intro_ingest.rs:119-149 | the relay loop acknowledges exactly the entries it relayed |
| `FleetIntro.SweepRemoves` | src-tauri/src/community_device_intro_ingest.rs:101-170 | a sweep removes exactly the entries that every enrolled device had acknowledged when it began and those deposited more than thirty days ago, and changes nothing of the others but its own acknowledgement |
| `FleetIntro.IntroDoc.DepositPendingRetires` | src-tauri/src/community_device_retire_deposit.rs:74-150 | a pass keeps every entry, fills every signable vacant retire key and adds nothing else; a new entry carries the event and the clock minted for the first signable pair of its key, that pair's community and no acknowledgement |
| `FleetIntro.DepositOutlivesSweeps` | src-tauri/src/community_device_retire_deposit.rs:116-128 | a sweep keeps a fresh retirement exactly until thirty days after its minted clock, whoever is enrolled |
| `FleetRun.CoverageGcSafe` | src-tauri/src/community_device_intro_ingest.rs:104-170 | after any run, an unexpired entry a sweep drops had been relayed by every enrolled device before that sweep, and unexpired entries it would itself complete stay |
| `FleetRun.EntriesAreDeposits` | src-tauri/src/community_device_intro_crdt.rs:89-116 | after any run, every entry of every replica carries the event, community and clock of one deposit under its key |
| `FleetRun.DropsOnlyRelayedOrOld` | src-tauri/src/community_device_intro_ingest.rs:151-170 | after any run, what a sweep drops had been relayed by every enrolled device before it, or was deposited more than thirty days ago |
| `FleetRun.RunHonest` | src-tauri/src/community_device_intro_ingest.rs:104-127 | in every reachable state every acknowledgement, in replicas and in flight, stands for an earlier relay under that key |
| `FleetRun.EventsKeptIffOneEventPerKey` | src-tauri/src/community_device_intro_crdt.rs:89-116 | in every run whose deposits obey a policy every acknowledgement is of the event beside it, if and only if the policy never allows two events under one key |
| `FleetRun.ConsistentDepositsKeepEvents` | src-tauri/src/community_device_intro_crdt.rs:89-96 | the half for one run: if its deposits under one key agree, every acknowledgement in every reachable document is of the event beside it |
| `FleetRun.RetireAcksWrongEvent` | src-tauri/src/community_device_retire_deposit.rs:95-128 | for any retirement and any two different signed events for it, a run that leaves an acknowledgement beside an event that device never relayed |
| `FleetConverge.TwoExchangesConverge` | src-tauri/src/community_device_intro_ingest.rs:151-170 | from any joint state, exchange, sweep, exchange, sweep empties every replica |
| `FleetConverge.FleetConverges` | src-tauri/src/community_device_intro_ingest.rs:151-170 | sweep, exchange, sweep, exchange, sweep empties every replica although merges resurrect collected entries |
| `FleetConverge.ExchangeLeaves` | src-tauri/src/community_device_intro_ingest.rs:104-170 | after an exchange and a sweep an entry is at a replica exactly when some replica held it and some device had acknowledged no copy of it |
| `FleetConverge.OneExchangeSuffices` | src-tauri/src/community_device_intro_ingest.rs:151-170 | sweep, exchange, sweep empties the fleet exactly when after the first sweep every device has acknowledged some copy of every entry still held |
| `FleetConverge.OneExchangeIsNotEnough` | src-tauri/src/community_device_intro_ingest.rs:104-127 | an entry one replica neither holds nor has acknowledged is still everywhere after a single exchange |
| `FleetConverge.DepositsRestart` | src-tauri/src/community_device_retire_deposit.rs:85-128 | after the converging schedule, a deposit pass at any replica leaves the fleet empty exactly when nothing can be signed there, and otherwise every signable retirement is back, unacknowledged |
| `AddressBook.LeastKey` | src-tauri/src/community_address_book.rs:45-49 | the key picked is in the set and no key of the set precedes it in map order |
| `AddressBook.ScanIsFilter` | src-tauri/src/community_address_book.rs:100-112 | the floor-seeded prefix scan visits exactly the community's keys, in order |
| `AddressBook.AscendingOrdered` | src-tauri/src/community_address_book.rs:45-49 | map iteration ascends strictly |
| `AddressBook.CommunityAddressBook.Upsert` | src-tauri/src/community_address_book.rs:169-234 | clamp, sweep, last-writer-wins, community cap and eviction: the whole new book and the outcome |
| `AddressBook.CommunityAddressBook.SweepCommunity` | src-tauri/src/community_address_book.rs:190-198 | removes exactly the community's expired rows |
| `AddressBook.CommunityAddressBook.EvictOldestIfAtCap` | src-tauri/src/community_address_book.rs:118-138 | at the cap, removes the oldest row of the actor's class, the earlier key on a tie |
| `AddressBook.CommunityAddressBook.RowsForCommunity` | src-tauri/src/community_address_book.rs:241-248 | returns the community's fresh rows in key order |
| `AddressBook.CommunityAddressBook.RemoveOwner` | src-tauri/src/community_address_book.rs:252-264 | drops both kinds of one owner in one community and counts them |
| `AddressBook.CommunityAddressBook.RemoveCommunity` | src-tauri/src/community_address_book.rs:268-273 | drops one community and counts its rows |
| `AddressBook.CommunityAddressBook.SweepExpired` | src-tauri/src/community_address_book.rs:279-284 | drops expired rows everywhere and counts them |
| `AddressBook.OldestIn` | src-tauri/src/community_address_book.rs:131-135 | the first row with the least stamp |
| `AddressBook.FreshRowsOfCommunity` | src-tauri/src/community_address_book.rs:236-248 | a row is returned exactly when it is stored in the community and unexpired |
| `AddressBookUpsert.KeyForRowIdentifies` | src-tauri/src/community_address_book.rs:80-90 | two rows share a key exactly when they are one member's, of one kind, and name the same node or relay device |
| `AddressBookUpsert.ExpiredIsTooOld` | src-tauri/src/community_address_book.rs:92-101 | a row expires exactly a day (reachability) or 15 minutes (relay) after its stamp |
| `AddressBookUpsert.OutcomeDecided` | src-tauri/src/community_address_book.rs:150-234 | for every book and row, exactly when an upsert is ignored as older, replaces, is turned away by the community cap, or inserts |
| `AddressBookUpsert.BookDecided` | src-tauri/src/community_address_book.rs:150-234 | for every book, what it holds afterwards: the row with its clamped stamp, every other live row unchanged, and at the cap of eight all of the class but its oldest |
| `AddressBookUpsert.ClassKeepsSize` | src-tauri/src/community_address_book.rs:114-138 | an insertion at the cap of eight leaves the class at its size, one below the cap lets it grow by one |
| `AddressBookUpsert.RowsInKeyOrder` | src-tauri/src/community_address_book.rs:236-248 | a read returns the community's unexpired rows, each once, in key order |
| `AddressBookRun.ReachableBounds` | src-tauri/src/community_address_book.rs:21-38 | in every reachable state: row caps per community and per member and class, every row under its own key, no stamp beyond the largest clock plus the tolerance |
| `AddressBookRun.UpsertTouchesOnlyOwnRows` | src-tauri/src/community_address_book.rs:150-168 | an upsert changes only its own key, expired rows of its community and at most one further row: on an insertion at the class cap, the oldest of its actor's class |
| `AddressBookRun.OthersNeverTouch` | src-tauri/src/community_address_book.rs:161-168 | a row outlives, unchanged, any run of other members' and other communities' operations while it is unexpired |
| `AddressBookRun.PlainLwwIsFirstMaximum` | src-tauri/src/community_address_book.rs:150-160 | the plain store holds for each key the first upsert with the greatest clamped stamp |
| `AddressBookRun.SweptStoreRefinesLww` | src-tauri/src/community_address_book.rs:169-248 | with non-decreasing clocks and no cap met, every later read equals the plain store's, in the same order, although sweeps delete and older rows return |
| `AddressBookRun.TracksRun` | src-tauri/src/community_address_book.rs:186-204 | at every point each stored row is the plain store's, or that one has expired and the stored one is no newer |
| `AddressBookSnapshot.NewestFirstIsStableSort` | src-tauri/src/address_book_sync.rs:753 | the snapshot order is a permutation by falling stamp that keeps rows of one stamp in order |
| `AddressBookSnapshot.SealSnapshotBounded` | src-tauri/src/address_book_sync.rs:747-790 | serves a fitting or empty prefix that one more row would push over the cap, passes seal errors on, and seals at most 2 + ceil(log2 n) packets |
| `AddressBookSnapshot.ServesLongest` | src-tauri/src/address_book_sync.rs:759-789 | with monotone sizes the served prefix is the longest that fits, or the empty one, and it is within the cap exactly when the sealed empty set is |
| `AddressBookSnapshot.BelowOverheadExceedsCap` | src-tauri/src/address_book_sync.rs:785-789 | with rows to serve and a cap below the sealed overhead, the reply is the sealed empty set and over the cap |
| `AddressBookSnapshot.EmptySetCanExceedCap` | src-tauri/src/address_book_sync.rs:785-789 | a sealer, a row and a cap for which that happens |
| `AddressBookSnapshot.HalvingsIsLog` | src-tauri/src/address_book_sync.rs:762-763 | the number of halvings of n is at most r exactly when n is at most 2^r |
| `CatchupBeacons.AdmitBeacons` | src-tauri/src/community_dfrost_catchup.rs:559-583 | keeps exactly the beacons that are not implausibly future; clock zero disables the gate |
| `CatchupBeacons.AdmissibleIs` | src-tauri/src/community_dfrost_catchup.rs:559-583 | a beacon is admitted exactly when it is at most five minutes ahead of the clock, or the clock reads zero |
| `CatchupBeacons.WatermarkIsGreatest` | src-tauri/src/community_dfrost_catchup.rs:317-335 | the watermark is the greatest admissible clock held and never more than five minutes ahead of a readable local clock |
| `CatchupBeacons.TiedHashes` | src-tauri/src/community_dfrost_catchup.rs:584-596 | the message hashes for which two admitted beacons differ in output |
| `CatchupPaging.SelectBeacons` | src-tauri/src/community_dfrost_catchup.rs:559-642 | the scan, the two budgeted index passes and the ordered emission compute the served beacons |
| `CatchupPaging.FirstPass` | src-tauri/src/community_dfrost_catchup.rs:610-621 | the first tied beacons, as many as the cap |
| `CatchupPaging.SecondPass` | src-tauri/src/community_dfrost_catchup.rs:622-638 | adds the oldest untied beacons above the watermark while budget is left |
| `CatchupPaging.ServedCount` | src-tauri/src/community_dfrost_catchup.rs:600-642 | exactly the lesser of the cap and all eligible beacons is served |
| `CatchupPaging.ServedBeacons` | src-tauri/src/community_dfrost_catchup.rs:515-535 | what is served is admitted, in clock order, tied or above the watermark; tied groups that fit the cap are whole; nothing eligible is held back below the cap |
| `CatchupPaging.ServesNextPage` | src-tauri/src/community_dfrost_catchup.rs:622-642 | without ties, a requester holding the first k beacons is served exactly the next page |
| `CatchupPaging.PagingProgress` | src-tauri/src/community_dfrost_catchup.rs:317-335 | without ties and with distinct clocks, after r rounds the requester holds exactly the first r * max beacons |
| `CatchupPaging.PagingCompletes` | src-tauri/src/community_dfrost_catchup.rs:536-693 | without ties and with distinct clocks, the requester holds all beacons if and only if the rounds cover them, and is then served no more; `CatchupTies.PagingExact` drops both conditions |
| `CatchupTies.PagingExact` | src-tauri/src/community_dfrost_catchup.rs:515-642 | for every log, the requester holds every beacon after r rounds if and only if there is none, or r > 0, paging can complete (the condition below) and r pages cover the untied ones |
| `CatchupTies.PagingEndsIff` | src-tauri/src/community_dfrost_catchup.rs:515-642 | some number of rounds brings every beacon if and only if all fit one reply, or the tied ones leave a page, every untied one beyond it is later than every tied one and no page boundary parts untied ones that share a clock |
| `CatchupTies.NextPage` | src-tauri/src/community_dfrost_catchup.rs:600-642 | while nothing is stranded, an exchange brings the tied beacons and the next page of untied ones, and nothing else |
| `CatchupTies.BelowATieIsLost` | src-tauri/src/community_dfrost_catchup.rs:600-642 | an untied beacon that the first reply leaves out is in no later log if it is not later than some tied one |
| `CatchupTies.SecondOldIsLost` | src-tauri/src/community_dfrost_catchup.rs:1831-1861 | for that log and a cap of three, no number of rounds brings the second old beacon |
| `CatchupTies.NoRoomLacks` | src-tauri/src/community_dfrost_catchup.rs:606-621 | when the tied beacons take the whole cap and more are held than it, the requester never gets all |
| `CatchupTies.CaughtUpServesTies` | src-tauri/src/community_dfrost_catchup.rs:515-535 | a requester that holds everything is served tied beacons only |
| `CatchupTies.DistinctUntiedCompletes` | src-tauri/src/community_dfrost_catchup.rs:515-535 | paging can complete for every log without ties, with distinct clocks and a cap above zero |
| `CatchupSelect.DkEventsForEpoch` | src-tauri/src/community_dfrost_catchup.rs:359-375 | each actor's newest attestation of the epoch, ascending by actor, and nothing else |
| `CatchupSelect.TrimIsQuorum` | src-tauri/src/community_dfrost_catchup.rs:460-504 | the trimmed set is unanimous on a plurality payload (smallest on a tie), ascending by actor, threshold-many or all |
| `CatchupSelect.TrimKeepsLowest` | src-tauri/src/community_dfrost_catchup.rs:452-456 | of the attesters of its payload a trimmed quorum keeps those with the lowest actors |
| `CatchupSelect.SelectResetChain` | src-tauri/src/community_dfrost_catchup.rs:394-434 | links heal the first owed resets in history order, each with its marker and a quorum of the next epoch, at most eight |
| `CatchupSelect.OwedMember` | src-tauri/src/community_dfrost_catchup.rs:398-419 | a reset is owed exactly when the requester's epoch does not exceed it and a marker is retained |
| `CatchupSelect.OwedInOrder` | src-tauri/src/community_dfrost_catchup.rs:389-419 | the owed resets are at increasing positions of the history, and every position that is owed is there |
| `CatchupSelect.SelectCatchup` | src-tauri/src/community_dfrost_catchup.rs:536-693 | silence exactly for an inactive responder or a current requester owed nothing; otherwise the evidence, beacons and chain above |
| `CatchupSelect.CaughtUpIsSilent` | src-tauri/src/community_dfrost_catchup.rs:668-674 | a current requester that has paged through a log without ties or owed resets is answered with silence |
| `CatchupSelect.GroupFrames` | src-tauri/src/community_dfrost_catchup.rs:710-745 | returns, by first appearance, exactly the responders within the cap that sent exactly one status frame, each with that status and all it sent in order; counts exactly the frames of responders beyond the cap as dropped |
| `CatchupSelect.UsableGroups` | src-tauri/src/community_dfrost_catchup.rs:695-744 | the same of the grouping function: no group without exactly one status frame, and no such group left out |
| `CatchupSelect.AdmittedExactly` | src-tauri/src/community_dfrost_catchup.rs:699-709 | a responder is admitted exactly when fewer than `cap` others were heard before its first frame, in that order |
| `CatchupSelect.AdmittedIdsDistinct` | src-tauri/src/community_dfrost_catchup.rs:699-709 | at most `cap` distinct responders are admitted, and below the cap all of them |
| `CatchupSelect.GroupsPartitionFrames` | src-tauri/src/community_dfrost_catchup.rs:714-727 | every frame is in exactly one group or counted as dropped |
| `PinPlanner.Plan` | src-tauri/src/buddy_pin_planner.rs:77-194 | the loops compute the walk over active pacts, which `PinPlannerWalk.WalkedIs` characterises; releases are exactly the ledger's unlisted pairs and inactive buddies; a faulted ledger plans nothing |
| `PinPlanner.PlanPact` | src-tauri/src/buddy_pin_planner.rs:119-172 | the loop computes one pact's walk with its breaks, continues and reservations, which `PinPlannerWalk.WalkedIs` characterises |
| `PinPlanner.PlanReleases` | src-tauri/src/buddy_pin_planner.rs:175-191 | the release rule in both directions |
| `PinPlannerWalk.WalkedIs` | src-tauri/src/buddy_pin_planner.rs:107-172 | for every snapshot and budget: each active pact passes its list up to the first due entry over its pledge, or to be fetched with the budget full or too small; every passed due entry comes to its addition, nothing else is added, and the plan is catching up exactly when something is left |
| `PinPlannerWalk.CutsUnique` | src-tauri/src/buddy_pin_planner.rs:123-172 | only one way to end every pact's walk meets that law, so it decides the plan |
| `PinPlannerWalk.EntryDecided` | src-tauri/src/buddy_pin_planner.rs:127-171 | every listed entry of an active pact is held, in flight, added, or absent everywhere and backed off, or lies at or after the entry that stopped the pact |
| `PinPlannerWalk.ActiveInOrder` | src-tauri/src/buddy_pin_planner.rs:98-107 | the active pacts are exactly the pledges to owners that pledge back, in order |
| `PinPlannerWalk.PlanSplits` | src-tauri/src/buddy_pin_planner.rs:145-171 | fetches and attributions are together exactly what the walk adds |
| `PinPlannerSafety.BudgetKept` | src-tauri/src/buddy_pin_planner.rs:151-171 | if a fetch is planned, stored bytes, claims in flight and planned claims stay within the shared budget |
| `PinPlannerSafety.BudgetSafeIffNotMax` | src-tauri/src/buddy_pin_planner.rs:151-157 | the budget binds every plan if and only if it is below the largest 64-bit value |
| `PinPlannerSafety.PledgeKept` | src-tauri/src/buddy_pin_planner.rs:118-171 | a pact with planned additions stays within its pledge, ledger and in-flight bytes included |
| `PinPlannerSafety.PledgeSafeIffNotMax` | src-tauri/src/buddy_pin_planner.rs:137-150 | a pledge binds every plan if and only if it is below the largest 64-bit value |
| `PinPlannerSafety.AdditionsJustified` | src-tauri/src/buddy_pin_planner.rs:127-171 | every addition is listed by an active pact, not held, not in flight, and fetched only if absent everywhere and not backed off |
| `PinPlannerSafety.ReleasedNeverAdded` | src-tauri/src/buddy_pin_planner.rs:175-191 | no released pair or buddy is also fetched or attributed |
| `PinPlannerSafety.AdditionsFollowList` | src-tauri/src/buddy_pin_planner.rs:14-17 | a buddy's additions follow the order of its backup set |
| `PinPlannerSafety.NotCatchingUpMeansDone` | src-tauri/src/buddy_pin_planner.rs:57-59 | a plan that does not report catching up leaves no listed entry unheld and unplanned |
| `PinPlannerSafety.FullFetchesNothing` | src-tauri/src/buddy_pin_planner.rs:154-160 | once the budget is full no later pact fetches |
| `CeremonyId.DkgPreimage` | src-tauri/src/community_dfrost_types.rs:478-494 | the buffer holds the DKG preimage, 16k + 30 bytes |
| `CeremonyId.RefreshPreimage` | src-tauri/src/community_dfrost_types.rs:526-545 | the buffer holds the refresh preimage, 16k + 36 or 16k + 40 bytes |
| `CeremonyId.RepairPreimage` | src-tauri/src/community_dfrost_types.rs:561-581 | the buffer holds the repair preimage, 16k + 61 bytes |
| `CeremonyId.DkgLayout` | src-tauri/src/community_dfrost_types.rs:465-494 | each member at its 16-byte offset, then threshold, wall time and logical time with the low byte first, then the space |
| `CeremonyId.RefreshLayout` | src-tauri/src/community_dfrost_types.rs:496-545 | the members, the epoch, the threshold, the text "refresh-v1", the space, and for a retry its number |
| `CeremonyId.RepairLayout` | src-tauri/src/community_dfrost_types.rs:547-581 | the participant, the epoch, the helpers, wall and logical time, the text "repair-v1", the space |
| `CeremonyId.KindsByLength` | src-tauri/src/community_dfrost_types.rs:518-525 | equal lengths imply the same kind, the same number of members and the same presence of an attempt |
| `CeremonyId.PreimageUnambiguous` | src-tauri/src/community_dfrost_types.rs:465-581 | two ceremonies share a preimage if and only if they are the same ceremony |
| `BackfillDriver.FirstResyncDeadline` | src-tauri/src/channel_backfill.rs:212-243 | between now and one interval ahead, never within an interval of a trusted last stamp, and exactly when it lies in the future |
| `BackfillDriver.OverdueWithoutJitterIsNow` | src-tauri/src/channel_backfill.rs:216-243 | an overdue channel with an interval of exactly the floor is due at the present instant |
| `BackfillLaws.ParksWithoutSink` | src-tauri/src/channel_backfill.rs:482-507 | without a sink an idle driver that does not stop parks for one interval, or for ever when the floor is off |
| `BackfillLaws.FirstDeadlineIs` | src-tauri/src/channel_backfill.rs:212-243 | the first deadline in each of the documented cases |
| `BackfillDriver.RunBackfillDriver` | src-tauri/src/channel_backfill.rs:431-719 | the driver's loop and its variables compute the run of the machine |
| `BackfillDriver.StampsAreSpaced` | src-tauri/src/channel_backfill.rs:562-606 | over every run the first persisted stamp is at or after the first deadline and each next one at least an interval later |
| `BackfillDriver.StampsSpacedAcrossRestart` | src-tauri/src/channel_backfill.rs:212-243 | a session started from the last stamp persists none within an interval of it |
| `BackfillDriver.ChurnCannotPostpone` | src-tauri/src/channel_backfill.rs:490-505 | whenever the driver parks, it parks until the one deadline, or for a second if that has passed |
| `BackfillDriver.RestRun` | src-tauri/src/channel_backfill.rs:271-291 | in every run without early ends, re-requests caused by bumps and kicks come at least 60 s after the previous request |
| `BackfillDriver.EarlyEndBreaks` | src-tauri/src/channel_backfill.rs:283-290 | after any run, a shutdown-watch notification that does not stop a driver in mid-cooldown can be followed at once by a request that breaks the cooldown |
| `BackfillDriver.CooldownHoldsIffNoEarlyEnd` | src-tauri/src/channel_backfill.rs:269-291 | a run keeps the cooldown at every point, whatever follows, if and only if none of its events is such a notification |
| `BackfillLaws.BackoffIsKept` | src-tauri/src/channel_backfill.rs:610-616 | a wait until `target` parks until then or for 250 ms, whichever is longer, and unless a bump, a dropped sender or the shutdown watch wakes the driver before, nothing is sent before |
| `BackfillLaws.BumpIsNext` | src-tauri/src/channel_backfill.rs:490-520 | after a bump or kick, whatever happens, the next request is a re-arm's |
| `BackfillLaws.FloorIsNext` | src-tauri/src/channel_backfill.rs:562-606 | after the floor fires, whatever happens, the next request is the floor's |
| `BackfillLaws.BumpDefersToTheMinute` | src-tauri/src/channel_backfill.rs:269-284 | a bump re-arms at once when a minute has passed since the last request, and otherwise waits until exactly then |
| `BackfillLaws.RearmsAMinuteApart` | src-tauri/src/channel_backfill.rs:269-291 | in a run without early ends, a re-arm's request comes at least a minute after the request before it |
| `BackfillLaws.ReceiverKept` | src-tauri/src/channel_backfill.rs:490-560 | over any run a receiver is there exactly as long as its own sender has not been dropped |
| `BackfillLaws.StoppedExactly` | src-tauri/src/channel_backfill.rs:464-719 | a run has stopped exactly when it saw the shutdown flag, its engine was gone, or it was idle with no receiver left and no floor |
| `BackfillLaws.StampsAreFires` | src-tauri/src/channel_backfill.rs:585-606 | with a sink the persisted stamps are exactly the times the floor fired |

## Left out

- Transport, queries and subscriptions, channels, tasks and locks: a lock-scoped section is one atomic step.
- Cryptography: SHA-256, blake3, sealing, signatures and VRF checks are parameters; preimages are modelled, digests are not. `community_dfrost_crypto.rs` is not part of this model.
- The CBOR codecs, hence the `Decode` error of reconciliation messages and the frame codec of catch-up.
- Fingerprint counts and list lengths are unbounded naturals; the code's 64-bit counts cannot wrap below 2^64 events.
- RbsrReconcile.ReconcileIngesting: a round without a reply, with a second holder's reply or with a reseal failure ends in the fallback path, which is not modelled; neither are rejected event packets.
- RbsrReconcile.ReplyEventsAreShipped: lists the events in key order, while the code lists them in segment order, which `RbsrReconcile.IngestOrderIrrelevant` shows makes no difference; a segment that cannot be read ends the reply and is not modelled.
- FleetIntro.IntroDoc.DepositPendingRetires: the code releases the lock between looking at a key and inserting; the model runs the pass as one step, and `FleetRun` interleaves its deposits one at a time.
- FleetConverge.FleetConverges: stated for fixed schedules of whole rounds over replicas equal to the enrolled set, with all relays succeeding and nothing expiring in between; `FleetRun` covers arbitrary interleavings for safety.
- AddressBookRun.SweptStoreRefinesLww: eviction can drop a newer row than the incoming one and readmit older ones later, so nothing is claimed once a cap is met.
- AddressBookSnapshot.ServesLongest: sizes of sealed prefixes are assumed monotone; without that the method still serves a prefix that one more row would push over the cap.
- CatchupPaging.PagingCompletes: only for logs without ties and with distinct clocks; `CatchupTies.PagingExact` states the exact condition for every other log.
- CatchupTies.PagingExact: one requester that starts without beacons and one responder whose log does not change between rounds, both at one clock; the events of a log are distinct, as its map of events is.
- CatchupPaging.PagingProgress: only for logs without ties and with distinct clocks, as its row says.
- CatchupSelect.SelectCatchup: the log, the key history and payload decoding are inputs; adoption and verification by the requester are not modelled.
- PinPlanner.Plan: the ledger and record stores appear as the answers they give, and the sums over fetches in flight wrap as in a release build.
- PinPlannerSafety.BudgetKept: assumes the claims in flight add up in 64 bits, as the code's own sum does; one cid may still be fetched for two buddies in one plan.
- BackfillDriver.RunBackfillDriver: the paging latch is external and its next action arbitrary, except that a latch that was reset sends next; page sizes and watermark values do not matter to the proved properties and are omitted.
- `run_root_fetch_driver`, the legacy floor without a persist sink beyond its wake time, and the reconcile-mode helpers.
- Persistence files, logging, the user-interface and metrics layers, and the modules whose decisions are a single comparison.
