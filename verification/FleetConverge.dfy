/** Convergence of the intro dataset without tombstones: although a merge can
    bring back what a sweep removed, two exchanges suffice to empty every replica
    (`src-tauri/src/community_device_intro_ingest.rs:156-163`). */
module FleetConverge {
  import opened Prelude
  import opened FleetIntro

  type Replicas = map<DeviceId, Doc>

  /** Every replica sweeps once, with the replicas themselves enrolled. */
  function SweepAll(docs: Replicas, relay: DeviceId -> Relay, clock: DeviceId -> u64): Replicas {
    map d | d in docs :: Sweep(docs[d], d, relay(d), docs.Keys, clock(d))
  }

  /** One document merges a list of snapshots, one after the other. */
  function MergeSeq(doc: Doc, snapshots: seq<Doc>): Doc
    decreases snapshots
  {
    if snapshots == [] then doc else MergeSeq(Merge(doc, snapshots[0]), snapshots[1..])
  }

  /** The order in which each replica receives the others' snapshots. */
  type Orders = DeviceId -> seq<DeviceId>

  /** Every replica receives every other at least once, from the fleet only. */
  predicate ExchangesAll(docs: Replicas, orders: Orders) {
    forall d :: d in docs ==>
      && (forall i :: 0 <= i < |orders(d)| ==> orders(d)[i] in docs)
      && (forall x :: x in docs && x != d ==> x in orders(d))
  }

  function Snapshots(docs: Replicas, order: seq<DeviceId>): seq<Doc>
    requires forall i :: 0 <= i < |order| ==> order[i] in docs
  {
    seq(|order|, i requires 0 <= i < |order| => docs[order[i]])
  }

  /** Every replica merges every other's snapshot, each in its own order. */
  function MergeAll(docs: Replicas, orders: Orders): Replicas
    requires ExchangesAll(docs, orders)
  {
    map d | d in docs :: MergeSeq(docs[d], Snapshots(docs, orders(d)))
  }

  // ----- what an exchange achieves -----

  /** Some replica holds `k`. */
  predicate Present(docs: Replicas, k: string) {
    exists d :: d in docs && k in docs[d]
  }

  /** Some replica's copy of `k` is acked by `x`. */
  predicate AckedAnywhere(docs: Replicas, k: string, x: DeviceId) {
    exists d :: d in docs && k in docs[d] && x in docs[d][k].relayedBy
  }

  predicate InSome(snapshots: seq<Doc>, k: string) {
    exists i :: 0 <= i < |snapshots| && k in snapshots[i]
  }

  predicate AckedInSome(snapshots: seq<Doc>, k: string, x: DeviceId) {
    exists i :: 0 <= i < |snapshots| && k in snapshots[i] && x in snapshots[i][k].relayedBy
  }

  lemma InSomeCons(snapshots: seq<Doc>, k: string, x: DeviceId)
    requires snapshots != []
    ensures InSome(snapshots, k) <==> k in snapshots[0] || InSome(snapshots[1..], k)
    ensures AckedInSome(snapshots, k, x)
       <==> (k in snapshots[0] && x in snapshots[0][k].relayedBy) || AckedInSome(snapshots[1..], k, x)
  {
    if InSome(snapshots[1..], k) {
      var i :| 0 <= i < |snapshots[1..]| && k in snapshots[1..][i];
      assert k in snapshots[i + 1];
    }
    if AckedInSome(snapshots[1..], k, x) {
      var i :| 0 <= i < |snapshots[1..]| && k in snapshots[1..][i] && x in snapshots[1..][i][k].relayedBy;
      assert k in snapshots[i + 1] && x in snapshots[i + 1][k].relayedBy;
    }
    if InSome(snapshots, k) && k !in snapshots[0] {
      var i :| 0 <= i < |snapshots| && k in snapshots[i];
      assert k in snapshots[1..][i - 1];
    }
    if AckedInSome(snapshots, k, x) && !(k in snapshots[0] && x in snapshots[0][k].relayedBy) {
      var i :| 0 <= i < |snapshots| && k in snapshots[i] && x in snapshots[i][k].relayedBy;
      assert k in snapshots[1..][i - 1] && x in snapshots[1..][i - 1][k].relayedBy;
    }
  }

  /** A merge sequence unites keys and acks, in whatever order the snapshots come. */
  lemma {:induction false} MergeSeqUnites(doc: Doc, snapshots: seq<Doc>, k: string, x: DeviceId)
    ensures k in MergeSeq(doc, snapshots) <==> k in doc || InSome(snapshots, k)
    ensures k in MergeSeq(doc, snapshots) ==>
              (x in MergeSeq(doc, snapshots)[k].relayedBy
               <==> (k in doc && x in doc[k].relayedBy) || AckedInSome(snapshots, k, x))
    decreases snapshots
  {
    if snapshots != [] {
      MergeSeqUnites(Merge(doc, snapshots[0]), snapshots[1..], k, x);
      InSomeCons(snapshots, k, x);
    }
  }

  /** The other replicas' snapshots and its own document are all the documents. */
  lemma SnapshotsCover(docs: Replicas, orders: Orders, d: DeviceId, k: string)
    requires ExchangesAll(docs, orders) && d in docs
    ensures k in docs[d] || InSome(Snapshots(docs, orders(d)), k) <==> Present(docs, k)
  {
    var snapshots: seq<Doc> := Snapshots(docs, orders(d));
    if Present(docs, k) {
      var o :| o in docs && k in docs[o];
      if o != d {
        var i :| 0 <= i < |orders(d)| && orders(d)[i] == o;
        assert k in snapshots[i];
      }
    }
    if InSome(snapshots, k) {
      var i :| 0 <= i < |snapshots| && k in snapshots[i];
      assert orders(d)[i] in docs;
    }
  }

  lemma SnapshotsCoverAcks(docs: Replicas, orders: Orders, d: DeviceId, k: string, x: DeviceId)
    requires ExchangesAll(docs, orders) && d in docs
    ensures (k in docs[d] && x in docs[d][k].relayedBy) || AckedInSome(Snapshots(docs, orders(d)), k, x)
       <==> AckedAnywhere(docs, k, x)
  {
    var snapshots: seq<Doc> := Snapshots(docs, orders(d));
    if AckedAnywhere(docs, k, x) {
      var o :| o in docs && k in docs[o] && x in docs[o][k].relayedBy;
      if o != d {
        var i :| 0 <= i < |orders(d)| && orders(d)[i] == o;
        assert k in snapshots[i] && x in snapshots[i][k].relayedBy;
      }
    }
    if AckedInSome(snapshots, k, x) {
      var i :| 0 <= i < |snapshots| && k in snapshots[i] && x in snapshots[i][k].relayedBy;
      assert orders(d)[i] in docs;
    }
  }

  /** After an exchange all replicas hold the same keys with the same acks. */
  lemma ExchangeAgrees(docs: Replicas, orders: Orders, d: DeviceId, k: string, x: DeviceId)
    requires ExchangesAll(docs, orders) && d in docs
    ensures var m := MergeAll(docs, orders);
            && (k in m[d] <==> Present(docs, k))
            && (k in m[d] ==> (x in m[d][k].relayedBy <==> AckedAnywhere(docs, k, x)))
  {
    hide Present, AckedAnywhere, InSome, AckedInSome, MergeSeq;
    MergeSeqUnites(docs[d], Snapshots(docs, orders(d)), k, x);
    SnapshotsCover(docs, orders, d, k);
    SnapshotsCoverAcks(docs, orders, d, k, x);
  }

  // ----- freshness -----

  /** No entry anywhere expires up to time `limit`. */
  predicate FreshUntil(docs: Replicas, limit: u64) {
    forall d, k :: d in docs && k in docs[d] ==> !Expired(limit, docs[d][k])
  }

  predicate DocFresh(doc: Doc, limit: u64) {
    forall k :: k in doc ==> !Expired(limit, doc[k])
  }

  lemma {:induction false} MergeSeqFresh(doc: Doc, snapshots: seq<Doc>, limit: u64)
    requires DocFresh(doc, limit) && forall i :: 0 <= i < |snapshots| ==> DocFresh(snapshots[i], limit)
    ensures DocFresh(MergeSeq(doc, snapshots), limit)
    decreases snapshots
  {
    if snapshots != [] {
      assert DocFresh(snapshots[0], limit);
      assert forall i :: 0 <= i < |snapshots[1..]| ==> snapshots[1..][i] == snapshots[i + 1];
      MergeSeqFresh(Merge(doc, snapshots[0]), snapshots[1..], limit);
    }
  }

  lemma ExchangeFresh(docs: Replicas, orders: Orders, limit: u64)
    requires ExchangesAll(docs, orders) && FreshUntil(docs, limit)
    ensures FreshUntil(MergeAll(docs, orders), limit)
  {
    var m: Replicas := MergeAll(docs, orders);
    forall d | d in docs ensures DocFresh(m[d], limit) {
      forall x | x in docs ensures DocFresh(docs[x], limit) {}
      MergeSeqFresh(docs[d], Snapshots(docs, orders(d)), limit);
    }
  }

  /** All relays succeed, and no clock passes `limit`. */
  ghost predicate Healthy(docs: Replicas, relay: DeviceId -> Relay, clock: DeviceId -> u64, limit: u64) {
    forall d :: d in docs ==> clock(d) <= limit && forall k, e :: relay(d)(k, e) == Relayed
  }

  /** A healthy sweep drops exactly the entries that every replica had acked, and
      acks the others. */
  lemma HealthySweep(docs: Replicas, relay: DeviceId -> Relay, clock: DeviceId -> u64, limit: u64,
                     d: DeviceId, k: string)
    requires FreshUntil(docs, limit) && Healthy(docs, relay, clock, limit) && d in docs
    ensures var after := SweepAll(docs, relay, clock);
            && (k in after[d] <==> k in docs[d] && !(docs.Keys <= docs[d][k].relayedBy))
            && (k in after[d] ==> after[d][k].relayedBy == docs[d][k].relayedBy + {d})
            && (k in after[d] ==> !Expired(limit, after[d][k]))
  {
  }

  lemma SweepFresh(docs: Replicas, relay: DeviceId -> Relay, clock: DeviceId -> u64, limit: u64)
    requires FreshUntil(docs, limit) && Healthy(docs, relay, clock, limit)
    ensures FreshUntil(SweepAll(docs, relay, clock), limit)
  {
    forall d, k | d in docs && k in SweepAll(docs, relay, clock)[d]
      ensures !Expired(limit, SweepAll(docs, relay, clock)[d][k])
    {
      HealthySweep(docs, relay, clock, limit, d, k);
    }
  }

  // ----- convergence -----

  /** All replicas agree: `k` is held by all or by none, with the same acks. */
  predicate Agreed(docs: Replicas, k: string) {
    forall d, o :: d in docs && o in docs ==>
      && (k in docs[d] <==> k in docs[o])
      && (k in docs[d] ==> docs[d][k].relayedBy == docs[o][k].relayedBy)
  }

  /** `k` is gone, or every replica's copy carries that replica's own ack. */
  predicate GoneOrSelfAcked(docs: Replicas, k: string) {
    (forall d :: d in docs ==> k !in docs[d]) || (forall d :: d in docs ==> k in docs[d] && d in docs[d][k].relayedBy)
  }

  /** `k` is gone, or every replica's copy carries every replica's ack. */
  predicate GoneOrCovered(docs: Replicas, k: string) {
    forall d :: d in docs && k in docs[d] ==> docs.Keys <= docs[d][k].relayedBy
  }

  lemma ExchangeMakesAgreed(docs: Replicas, orders: Orders, k: string)
    requires ExchangesAll(docs, orders)
    ensures Agreed(MergeAll(docs, orders), k)
  {
    var m: Replicas := MergeAll(docs, orders);
    forall d, o | d in docs && o in docs
      ensures k in m[d] <==> k in m[o]
      ensures k in m[d] ==> m[d][k].relayedBy == m[o][k].relayedBy
    {
      ExchangeAgrees(docs, orders, d, k, "");
      ExchangeAgrees(docs, orders, o, k, "");
      if k in m[d] {
        forall x: DeviceId ensures x in m[d][k].relayedBy <==> x in m[o][k].relayedBy {
          ExchangeAgrees(docs, orders, d, k, x);
          ExchangeAgrees(docs, orders, o, k, x);
        }
      }
    }
  }

  lemma SweepOfAgreed(docs: Replicas, relay: DeviceId -> Relay, clock: DeviceId -> u64, limit: u64, k: string)
    requires FreshUntil(docs, limit) && Healthy(docs, relay, clock, limit) && Agreed(docs, k)
    ensures GoneOrSelfAcked(SweepAll(docs, relay, clock), k)
  {
    var after: Replicas := SweepAll(docs, relay, clock);
    forall d | d in docs
      ensures k in after[d] <==> k in docs[d] && !(docs.Keys <= docs[d][k].relayedBy)
      ensures k in after[d] ==> d in after[d][k].relayedBy
    {
      HealthySweep(docs, relay, clock, limit, d, k);
    }
  }

  lemma ExchangeCovers(docs: Replicas, orders: Orders, k: string)
    requires ExchangesAll(docs, orders) && GoneOrSelfAcked(docs, k)
    ensures GoneOrCovered(MergeAll(docs, orders), k)
  {
    var m: Replicas := MergeAll(docs, orders);
    forall d, x | d in docs && k in m[d] && x in docs ensures x in m[d][k].relayedBy {
      ExchangeAgrees(docs, orders, d, k, x);
      assert k in docs[x] && x in docs[x][k].relayedBy;
    }
  }

  /** The second exchange covers whatever the first sweep left of a key, so the
      second sweep collects it. */
  lemma KeyCollected(docs: Replicas, relay: DeviceId -> Relay, limit: u64,
                     clock: DeviceId -> u64, clock': DeviceId -> u64, orders: Orders, orders': Orders,
                     d: DeviceId, k: string)
    requires FreshUntil(docs, limit)
    requires Healthy(docs, relay, clock, limit) && Healthy(docs, relay, clock', limit)
    requires ExchangesAll(docs, orders) && ExchangesAll(docs, orders') && d in docs
    ensures var swept := SweepAll(MergeAll(docs, orders), relay, clock);
            && ExchangesAll(swept, orders')
            && k !in SweepAll(MergeAll(swept, orders'), relay, clock')[d]
  {
    var merged := MergeAll(docs, orders);
    var swept := SweepAll(merged, relay, clock);
    var remerged := MergeAll(swept, orders');
    hide MergeAll, SweepAll, ExchangesAll, Healthy, FreshUntil;
    SameReplicas(docs, merged, relay, clock, clock', limit, orders');
    SameReplicas(docs, swept, relay, clock, clock', limit, orders');
    SameReplicas(docs, remerged, relay, clock, clock', limit, orders');
    ExchangeFresh(docs, orders, limit);
    SweepFresh(merged, relay, clock, limit);
    ExchangeFresh(swept, orders', limit);
    ExchangeMakesAgreed(docs, orders, k);
    SweepOfAgreed(merged, relay, clock, limit, k);
    ExchangeCovers(swept, orders', k);
    HealthySweep(remerged, relay, clock', limit, d, k);
  }

  /** From any joint state, exchange, sweep, exchange, sweep empties every replica. */
  lemma TwoExchangesConverge(docs: Replicas, relay: DeviceId -> Relay, limit: u64,
                             clock: DeviceId -> u64, clock': DeviceId -> u64, orders: Orders, orders': Orders)
    requires FreshUntil(docs, limit)
    requires Healthy(docs, relay, clock, limit) && Healthy(docs, relay, clock', limit)
    requires ExchangesAll(docs, orders) && ExchangesAll(docs, orders')
    ensures var swept := SweepAll(MergeAll(docs, orders), relay, clock);
            && ExchangesAll(swept, orders')
            && var last := SweepAll(MergeAll(swept, orders'), relay, clock');
               last.Keys == docs.Keys && forall d :: d in last ==> last[d] == map[]
  {
    var swept := SweepAll(MergeAll(docs, orders), relay, clock);
    hide MergeAll, SweepAll, ExchangesAll, Healthy, FreshUntil;
    SameReplicas(docs, swept, relay, clock, clock', limit, orders');
    var last := SweepAll(MergeAll(swept, orders'), relay, clock');
    forall d, k | d in last ensures k !in last[d] {
      KeyCollected(docs, relay, limit, clock, clock', orders, orders', d, k);
    }
    assert forall d :: d in last ==> last[d] == map[];
  }

  lemma SameReplicas(a: Replicas, b: Replicas, relay: DeviceId -> Relay, clock: DeviceId -> u64,
                     clock': DeviceId -> u64, limit: u64, orders: Orders)
    requires a.Keys == b.Keys
    ensures Healthy(a, relay, clock, limit) ==> Healthy(b, relay, clock, limit)
    ensures Healthy(a, relay, clock', limit) ==> Healthy(b, relay, clock', limit)
    ensures ExchangesAll(a, orders) ==> ExchangesAll(b, orders)
  {
    assert forall d :: d in a <==> d in a.Keys;
    assert forall d :: d in b <==> d in b.Keys;
  }

  lemma KeysKept(docs: Replicas, relay: DeviceId -> Relay, clock: DeviceId -> u64, orders: Orders)
    requires ExchangesAll(docs, orders)
    ensures SweepAll(docs, relay, clock).Keys == docs.Keys
    ensures MergeAll(docs, orders).Keys == docs.Keys
    ensures ExchangesAll(SweepAll(docs, relay, clock), orders)
    ensures ExchangesAll(MergeAll(docs, orders), orders)
  {
  }

  /** Every device has acked some copy of `k`. */
  predicate AckedByAll(docs: Replicas, k: string) {
    forall b :: b in docs ==> AckedAnywhere(docs, k, b)
  }

  /** One exchange, then a sweep: `k` stays at every replica exactly when some
      replica holds it and some device has acked no copy of it. */
  lemma ExchangeLeaves(docs: Replicas, relay: DeviceId -> Relay, limit: u64, clock: DeviceId -> u64,
                       orders: Orders, d: DeviceId, k: string)
    requires FreshUntil(docs, limit) && Healthy(docs, relay, clock, limit) && ExchangesAll(docs, orders) && d in docs
    ensures var after := SweepAll(MergeAll(docs, orders), relay, clock);
            d in after && (k in after[d] <==> Present(docs, k) && !AckedByAll(docs, k))
  {
    hide Present, AckedAnywhere, MergeAll, SweepAll, FreshUntil, Healthy, ExchangesAll;
    var merged: Replicas := MergeAll(docs, orders);
    KeysKept(docs, relay, clock, orders);
    KeysKept(merged, relay, clock, orders);
    SameReplicas(docs, merged, relay, clock, clock, limit, orders);
    ExchangeFresh(docs, orders, limit);
    HealthySweep(merged, relay, clock, limit, d, k);
    ExchangeAgrees(docs, orders, d, k, d);
    if k in merged[d] {
      forall b | b in docs ensures b in merged[d][k].relayedBy <==> AckedAnywhere(docs, k, b) {
        ExchangeAgrees(docs, orders, d, k, b);
      }
    }
  }

  /** A sweep adds only each replica's own acks. */
  lemma SweepAcksOwn(docs: Replicas, relay: DeviceId -> Relay, limit: u64, clock: DeviceId -> u64,
                     d: DeviceId, k: string, b: DeviceId)
    requires FreshUntil(docs, limit) && Healthy(docs, relay, clock, limit) && d in docs
    ensures var first := SweepAll(docs, relay, clock);
            && (k in first[d] && b in first[d][k].relayedBy ==> k in docs[d] && (d == b || AckedAnywhere(docs, k, b)))
            && (k in docs[d] && b in docs && k !in first[d] ==> AckedAnywhere(docs, k, b))
  {
    hide FreshUntil, Healthy, SweepAll;
    SweepKeys(docs, relay, clock);
    HealthySweep(docs, relay, clock, limit, d, k);
  }

  lemma FirstSweepLeaves(docs: Replicas, relay: DeviceId -> Relay, limit: u64, clock: DeviceId -> u64,
                         k: string, a: DeviceId, b: DeviceId)
    requires FreshUntil(docs, limit) && Healthy(docs, relay, clock, limit)
    requires a in docs && k in docs[a] && b in docs && k !in docs[b] && !AckedAnywhere(docs, k, b)
    ensures var first := SweepAll(docs, relay, clock);
            Present(first, k) && !AckedByAll(first, k)
  {
    var first: Replicas := SweepAll(docs, relay, clock);
    SweepKeys(docs, relay, clock);
    AckedIs(first, k, b);
    HeldIs(first, k, a);
    SweepAcksOwn(docs, relay, limit, clock, a, k, b);
    hide FreshUntil, Healthy, SweepAll, AckedAnywhere, Present;
    forall d | d in first ensures !(k in first[d] && b in first[d][k].relayedBy) {
      SweepAcksOwn(docs, relay, limit, clock, d, k, b);
    }
    assert !AckedAnywhere(first, k, b);
  }

  lemma AckedIs(docs: Replicas, k: string, b: DeviceId)
    ensures (forall d :: d in docs ==> !(k in docs[d] && b in docs[d][k].relayedBy)) ==> !AckedAnywhere(docs, k, b)
  {
  }

  lemma HeldIs(docs: Replicas, k: string, a: DeviceId)
    ensures a in docs && k in docs[a] ==> Present(docs, k)
  {
  }

  lemma SweepKeys(docs: Replicas, relay: DeviceId -> Relay, clock: DeviceId -> u64)
    ensures SweepAll(docs, relay, clock).Keys == docs.Keys
  {
  }

  /** An entry that some replica `b` neither holds nor has acked is still at every
      replica after sweep, exchange, sweep. */
  lemma OneExchangeIsNotEnough(docs: Replicas, relay: DeviceId -> Relay, limit: u64, clock: DeviceId -> u64,
                               orders: Orders, k: string, a: DeviceId, b: DeviceId)
    requires FreshUntil(docs, limit) && Healthy(docs, relay, clock, limit) && ExchangesAll(docs, orders)
    requires a in docs && k in docs[a] && b in docs && k !in docs[b] && !AckedAnywhere(docs, k, b)
    ensures var first := SweepAll(docs, relay, clock);
            && ExchangesAll(first, orders)
            && forall d :: d in docs ==> k in SweepAll(MergeAll(first, orders), relay, clock)[d]
  {
    hide *;
    var first: Replicas := SweepAll(docs, relay, clock);
    KeysKept(docs, relay, clock, orders);
    SameReplicas(docs, first, relay, clock, clock, limit, orders);
    SweepFresh(docs, relay, clock, limit);
    FirstSweepLeaves(docs, relay, limit, clock, k, a, b);
    var last := SweepAll(MergeAll(first, orders), relay, clock);
    forall d | d in docs ensures d in last && k in last[d] {
      ExchangeLeaves(first, relay, limit, clock, orders, d, k);
    }
  }

  /** One exchange between two sweeps empties the fleet exactly when, after the
      first sweep, every device has acked some copy of every entry still held. */
  lemma OneExchangeSuffices(docs: Replicas, relay: DeviceId -> Relay, limit: u64,
                            clock0: DeviceId -> u64, clock1: DeviceId -> u64, orders: Orders)
    requires FreshUntil(docs, limit) && ExchangesAll(docs, orders)
    requires Healthy(docs, relay, clock0, limit) && Healthy(docs, relay, clock1, limit)
    ensures var first := SweepAll(docs, relay, clock0);
            && ExchangesAll(first, orders)
            && (Empty(SweepAll(MergeAll(first, orders), relay, clock1))
                <==> forall k :: Present(first, k) ==> AckedByAll(first, k))
  {
    hide *;
    var first := SweepAll(docs, relay, clock0);
    KeysKept(docs, relay, clock0, orders);
    KeysKept(first, relay, clock1, orders);
    KeysKept(MergeAll(first, orders), relay, clock1, orders);
    SameReplicas(docs, first, relay, clock0, clock1, limit, orders);
    SweepFresh(docs, relay, clock0, limit);
    var last := SweepAll(MergeAll(first, orders), relay, clock1);
    forall d, k | d in first ensures k in last[d] <==> Present(first, k) && !AckedByAll(first, k) {
      ExchangeLeaves(first, relay, limit, clock1, orders, d, k);
    }
    EmptyIffNothingLeft(first, last);
  }

  lemma EmptyIffNothingLeft(first: Replicas, last: Replicas)
    requires last.Keys == first.Keys
    requires forall d, k :: d in first ==> (k in last[d] <==> Present(first, k) && !AckedByAll(first, k))
    ensures Empty(last) <==> forall k :: Present(first, k) ==> AckedByAll(first, k)
  {
    hide AckedByAll;
    if !Empty(last) {
      var d :| d in last && last[d] != map[];
      var k :| k in last[d];
      assert d in first && Present(first, k);
    }
    if k :| Present(first, k) && !AckedByAll(first, k) {
      var d :| d in first && k in first[d];
      assert k in last[d];
    }
  }

  /** Every replica's document is empty. */
  predicate Empty(docs: Replicas) {
    forall d :: d in docs ==> docs[d] == map[]
  }

  /** Everything the convergence schedule assumes. */
  ghost predicate Schedulable(docs: Replicas, relay: DeviceId -> Relay, limit: u64, clock0: DeviceId -> u64,
                              clock1: DeviceId -> u64, clock2: DeviceId -> u64, orders: Orders, orders': Orders) {
    && FreshUntil(docs, limit) && Healthy(docs, relay, clock0, limit)
    && Healthy(docs, relay, clock1, limit) && Healthy(docs, relay, clock2, limit)
    && ExchangesAll(docs, orders) && ExchangesAll(docs, orders')
  }

  lemma CanExchange(docs: Replicas, relay: DeviceId -> Relay, limit: u64, clock0: DeviceId -> u64,
                    clock1: DeviceId -> u64, clock2: DeviceId -> u64, orders: Orders, orders': Orders)
    requires Schedulable(docs, relay, limit, clock0, clock1, clock2, orders, orders')
    ensures ExchangesAll(docs, orders) && ExchangesAll(docs, orders')
  {
  }

  /** Sweep, exchange, sweep, exchange, sweep. */
  function Scheduled(docs: Replicas, relay: DeviceId -> Relay, clock0: DeviceId -> u64,
                     clock1: DeviceId -> u64, clock2: DeviceId -> u64, orders: Orders, orders': Orders): Replicas
    requires ExchangesAll(docs, orders) && ExchangesAll(docs, orders')
  {
    var first := SweepAll(docs, relay, clock0);
    ExchangesFollowKeys(docs, first, orders);
    var second := SweepAll(MergeAll(first, orders), relay, clock1);
    ExchangesFollowKeys(docs, second, orders');
    SweepAll(MergeAll(second, orders'), relay, clock2)
  }

  lemma ExchangesFollowKeys(a: Replicas, b: Replicas, orders: Orders)
    requires a.Keys == b.Keys && ExchangesAll(a, orders)
    ensures ExchangesAll(b, orders)
  {
    assert forall d :: d in a <==> d in a.Keys;
    assert forall d :: d in b <==> d in b.Keys;
  }

  /** The fleet converges without tombstones: whatever the replicas hold, the
      schedule leaves nothing, although each exchange may bring back entries that
      some replica had already collected. */
  lemma FleetConverges(docs: Replicas, relay: DeviceId -> Relay, limit: u64,
                       clock0: DeviceId -> u64, clock1: DeviceId -> u64, clock2: DeviceId -> u64,
                       orders: Orders, orders': Orders)
    requires Schedulable(docs, relay, limit, clock0, clock1, clock2, orders, orders')
    ensures var last := Scheduled(docs, relay, clock0, clock1, clock2, orders, orders');
            last.Keys == docs.Keys && Empty(last)
  {
    SweepFresh(docs, relay, clock0, limit);
    TwoExchangesConverge(SweepAll(docs, relay, clock0), relay, limit, clock1, clock2, orders, orders');
  }

  // ----- deposits restart the cycle -----

  /** Some retirement that the pass covers can be signed. */
  predicate Signable(communities: seq<Bytes16>, retired: seq<DeviceId>, mint: (nat, nat) -> Option<Minted>) {
    exists i, j :: 0 <= i < |communities| && 0 <= j < |retired| && mint(i, j).Some?
  }

  lemma FreshIsSigned(e: IntroEntry, communities: seq<Bytes16>, retired: seq<DeviceId>,
                      mint: (nat, nat) -> Option<Minted>, k: string)
    requires FreshAt(e, communities, retired, mint, k)
    ensures e.relayedBy == {} && Signable(communities, retired, mint)
  {
    var i: nat, j: nat :| FirstSigned(communities, retired, mint, k, i, j) && e.relayedBy == {};
  }

  /** A deposit pass over an empty document. */
  lemma PassFromEmpty(after: Doc, communities: seq<Bytes16>, retired: seq<DeviceId>, mint: (nat, nat) -> Option<Minted>)
    requires DepositPass(map[], after, communities, retired, mint)
    ensures after == map[] <==> !Signable(communities, retired, mint)
    ensures forall k :: k in after ==> after[k].relayedBy == {}
    ensures forall i: nat, j: nat {:trigger mint(i, j)} ::
              i < |communities| && j < |retired| && mint(i, j).Some? ==> RetireKey(communities[i], retired[j]) in after
  {
    hide RetireKey, FreshAt;
    forall k | k in after ensures after[k].relayedBy == {} && Signable(communities, retired, mint) {
      FreshIsSigned(after[k], communities, retired, mint, k);
    }
    if after != map[] {
      var k :| k in after;
    }
    if Signable(communities, retired, mint) {
      var i, j :| 0 <= i < |communities| && 0 <= j < |retired| && mint(i, j).Some?;
      assert RetireKey(communities[i], retired[j]) in after;
    }
  }

  /** Convergence is not the end while the deposit task runs, because it looks at
      the document and not at history. After the schedule has emptied the fleet, a
      deposit pass at any replica leaves it empty exactly when nothing can be
      signed there; otherwise that replica holds every signable retirement again
      and no ack of any. */
  lemma DepositsRestart(docs: Replicas, relay: DeviceId -> Relay, limit: u64,
                        clock0: DeviceId -> u64, clock1: DeviceId -> u64, clock2: DeviceId -> u64,
                        orders: Orders, orders': Orders, at: DeviceId, after: Doc,
                        communities: seq<Bytes16>, retired: seq<DeviceId>, mint: (nat, nat) -> Option<Minted>)
    requires Schedulable(docs, relay, limit, clock0, clock1, clock2, orders, orders') && at in docs
    requires var last := Scheduled(docs, relay, clock0, clock1, clock2, orders, orders');
             at in last && DepositPass(last[at], after, communities, retired, mint)
    ensures var fleet := Scheduled(docs, relay, clock0, clock1, clock2, orders, orders')[at := after];
            && (Empty(fleet) <==> !Signable(communities, retired, mint))
            && (forall i: nat, j: nat {:trigger mint(i, j)} ::
                  i < |communities| && j < |retired| && mint(i, j).Some? ==>
                    RetireKey(communities[i], retired[j]) in fleet[at])
            && (forall k :: k in fleet[at] ==> fleet[at][k].relayedBy == {})
  {
    CanExchange(docs, relay, limit, clock0, clock1, clock2, orders, orders');
    hide *;
    var last := Scheduled(docs, relay, clock0, clock1, clock2, orders, orders');
    FleetConverges(docs, relay, limit, clock0, clock1, clock2, orders, orders');
    EmptyBut(last, at, after);
    PassFromEmpty(after, communities, retired, mint);
  }

  lemma EmptyBut(docs: Replicas, at: DeviceId, doc: Doc)
    requires Empty(docs)
    ensures docs[at := doc][at] == doc
    ensures Empty(docs[at := doc]) <==> doc == map[]
    ensures at in docs ==> docs[at] == map[]
  {
  }
}
