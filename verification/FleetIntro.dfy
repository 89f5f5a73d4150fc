/** The community-device-intro dataset: its replicated document, the relay and
    garbage-collection sweep and the retire deposit
    (`src-tauri/src/community_device_intro_crdt.rs`,
    `src-tauri/src/community_device_intro_ingest.rs`,
    `src-tauri/src/community_device_retire_deposit.rs`). */
module FleetIntro {
  import opened Prelude

  const INTRO_TTL_MS := 30 * 24 * 60 * 60 * 1_000

  type DeviceId = string

  datatype IntroEntry = IntroEntry(
    signedEvent: seq<byte>,
    communityId: Bytes16,
    depositedAt: Hlc,
    relayedBy: set<DeviceId>)

  type Doc = map<string, IntroEntry>

  // ----- keys -----

  const HEX: string := "0123456789abcdef"

  function HexEncode(bytes: seq<byte>): (s: string)
    ensures |s| == 2 * |bytes|
  {
    if bytes == [] then "" else [HEX[bytes[0] / 16], HEX[bytes[0] % 16]] + HexEncode(bytes[1..])
  }

  function IntroKey(community: Bytes16, device: DeviceId): string {
    HexEncode(community) + ":" + device
  }

  function RetireKey(community: Bytes16, device: DeviceId): string {
    HexEncode(community) + ":" + device + ":r"
  }

  lemma HexDigitsDistinct(a: nat, b: nat)
    requires a < 16 && b < 16 && HEX[a] == HEX[b]
    ensures a == b
  {
  }

  lemma {:induction false} HexInjective(a: seq<byte>, b: seq<byte>)
    requires |a| == |b| && HexEncode(a) == HexEncode(b)
    ensures a == b
  {
    if a != [] {
      var x, y := HexEncode(a), HexEncode(b);
      assert x[0] == y[0] && x[1] == y[1] && x[2..] == y[2..];
      assert x[2..] == HexEncode(a[1..]) && y[2..] == HexEncode(b[1..]);
      HexDigitsDistinct(a[0] / 16, b[0] / 16);
      HexDigitsDistinct(a[0] % 16, b[0] % 16);
      HexInjective(a[1..], b[1..]);
      assert a == [a[0]] + a[1..] && b == [b[0]] + b[1..];
    }
  }

  lemma {:induction false} HexDigits(bytes: seq<byte>, i: nat)
    requires i < |bytes|
    ensures HexEncode(bytes)[2 * i] == HEX[bytes[i] / 16] && HexEncode(bytes)[2 * i + 1] == HEX[bytes[i] % 16]
  {
    if i > 0 {
      HexDigits(bytes[1..], i - 1);
      assert HexEncode(bytes)[2..] == HexEncode(bytes[1..]);
    }
  }

  /** Both keys: the community as 32 lower-case hex digits, a colon, the device, and
      for a retirement the suffix ":r". */
  lemma KeyLayout(c: Bytes16, d: DeviceId)
    ensures forall i :: 0 <= i < 16 ==>
              IntroKey(c, d)[2 * i] == HEX[c[i] / 16] && IntroKey(c, d)[2 * i + 1] == HEX[c[i] % 16]
    ensures IntroKey(c, d)[32..] == ":" + d
    ensures RetireKey(c, d) == IntroKey(c, d) + ":r"
  {
    hide HexEncode;
    forall i | 0 <= i < 16
      ensures IntroKey(c, d)[2 * i] == HEX[c[i] / 16] && IntroKey(c, d)[2 * i + 1] == HEX[c[i] % 16]
    {
      HexDigits(c, i);
    }
  }

  /** Distinct (community, device) pairs have distinct intro keys. */
  lemma IntroKeyInjective(c: Bytes16, d: DeviceId, c': Bytes16, d': DeviceId)
    requires IntroKey(c, d) == IntroKey(c', d')
    ensures c == c' && d == d'
  {
    var x, y := IntroKey(c, d), IntroKey(c', d');
    assert x[..32] == HexEncode(c) && y[..32] == HexEncode(c');
    assert x[33..] == d && y[33..] == d';
    HexInjective(c, c');
  }

  /** A retire key is an intro key only of a device whose id itself ends in ":r";
      between the 64-hex ids the fleet uses, the two never collide. */
  lemma RetireKeyCollides(c: Bytes16, d: DeviceId, c': Bytes16, d': DeviceId)
    ensures RetireKey(c, d) == IntroKey(c', d') <==> c == c' && d' == d + ":r"
    ensures |d| == |d'| ==> RetireKey(c, d) != IntroKey(c', d')
  {
    assert HexEncode(c) + ":" + d + ":r" == HexEncode(c) + ":" + (d + ":r");
    assert RetireKey(c, d) == IntroKey(c, d + ":r");
    if RetireKey(c, d) == IntroKey(c', d') {
      IntroKeyInjective(c, d + ":r", c', d');
    }
  }

  // ----- specification -----

  function MergedEntry(l: IntroEntry, r: IntroEntry): IntroEntry {
    l.(relayedBy := l.relayedBy + r.relayedBy)
  }

  function MergedAt(local: Doc, remote: Doc, k: string): IntroEntry
    requires k in local || k in remote
  {
    if k !in local then remote[k]
    else if k in remote then MergedEntry(local[k], remote[k])
    else local[k]
  }

  /** Insert-once for new keys, union of the acks for known ones. */
  function Merge(local: Doc, remote: Doc): Doc {
    map k | k in local.Keys + remote.Keys :: MergedAt(local, remote, k)
  }

  /** The outcomes of one relay attempt: `Ok(true)`, `Ok(false)` and `Err`. */
  datatype RelayOutcome = Relayed | NotMember | Failed

  type Relay = (string, IntroEntry) -> RelayOutcome

  /** An entry after device `self` has had its turn at it. */
  function Acked(self: DeviceId, relay: Relay, k: string, e: IntroEntry): IntroEntry {
    if self !in e.relayedBy && relay(k, e).Relayed? then e.(relayedBy := e.relayedBy + {self}) else e
  }

  predicate Covered(enrolled: set<DeviceId>, e: IntroEntry) {
    enrolled != {} && enrolled <= e.relayedBy
  }

  predicate Expired(nowMs: u64, e: IntroEntry) {
    SatAdd(e.depositedAt.wallMs, INTRO_TTL_MS) < nowMs
  }

  /** What one sweep leaves: entries neither expired nor covered when it began. */
  function Sweep(doc: Doc, self: DeviceId, relay: Relay, enrolled: set<DeviceId>, nowMs: u64): Doc {
    map k | k in doc && !Expired(nowMs, doc[k]) && !Covered(enrolled, doc[k]) :: Acked(self, relay, k, doc[k])
  }

  /** The document once every entry outside `todo` has had its turn. */
  function AckedSoFar(doc: Doc, self: DeviceId, relay: Relay, todo: set<string>): Doc {
    map k | k in doc :: if k in todo then doc[k] else Acked(self, relay, k, doc[k])
  }

  /** The keys that a sweep's relay calls newly succeed for. */
  function NewlyRelayed(doc: Doc, self: DeviceId, relay: Relay): set<string> {
    set k | k in doc && self !in doc[k].relayedBy && relay(k, doc[k]).Relayed?
  }

  datatype Minted = Minted(signedEvent: seq<byte>, at: Hlc)

  function Deposited(community: Bytes16, m: Minted): IntroEntry {
    IntroEntry(m.signedEvent, community, m.at, {})
  }

  // ----- the document -----

  class IntroDoc {
    var entries: Doc

    constructor ()
      ensures entries == map[]
    {
      entries := map[];
    }

    /** `merge_from`: reports a change exactly when the document changed. */
    method MergeFrom(remote: Doc) returns (changed: bool)
      modifies this
      ensures entries == Merge(old(entries), remote)
      ensures changed <==> entries != old(entries)
    {
      changed := false;
      var todo := remote.Keys;
      ghost var start := entries;
      MergeNothing(start);
      assert remote - remote.Keys == map[];
      while todo != {}
        invariant todo <= remote.Keys
        invariant entries == Merge(start, remote - todo) && Grown(start, entries)
        invariant changed <==> entries != start
        decreases |todo|
      {
        hide Merge, MergedEntry, Grown;
        var k :| k in todo;
        ghost var before := entries;
        var grown := MergeOne(k, remote[k]);
        MergeStep(start, remote, todo, k, before, entries);
        changed := changed || grown;
        todo := todo - {k};
      }
      assert remote - {} == remote;
    }

    /** The loop body: one remote entry. */
    method MergeOne(k: string, r: IntroEntry) returns (changed: bool)
      modifies this
      ensures entries == old(entries)[k := if k in old(entries) then MergedEntry(old(entries)[k], r) else r]
      ensures changed <==> entries != old(entries)
    {
      if k !in entries {
        changed := true;
        entries := entries[k := r];
      } else {
        var l := entries[k];
        var grown := l.relayedBy + r.relayedBy;
        SubsetSize(l.relayedBy, grown);
        ghost var before := entries;
        entries := entries[k := l.(relayedBy := grown)];
        changed := |grown| != |l.relayedBy|;
        assert changed ==> entries[k] != before[k];
        assert !changed ==> entries[k] == before[k];
      }
    }

    /** `ingest_pending`: one relay and GC sweep. */
    method IngestPending(self: DeviceId, relay: Relay, enrolled: set<DeviceId>, nowMs: u64)
      returns (changed: bool, ghost relayed: set<string>)
      modifies this
      ensures entries == Sweep(old(entries), self, relay, enrolled, nowMs)
      ensures changed <==> entries != old(entries)
      ensures relayed == NewlyRelayed(old(entries), self, relay)
    {
      ghost var start := entries;
      var coveredAtStart := set k | k in entries && Covered(enrolled, entries[k]);
      changed, relayed := RelayPending(self, relay);
      ghost var acked := entries;
      var before := |entries|;
      entries := map k | k in entries && !(Expired(nowMs, entries[k]) || k in coveredAtStart) :: entries[k];
      Retained(start, acked, entries, self, relay, enrolled, nowMs, relayed);
      changed := changed || |entries| != before;
    }

    /** The relay loop of the sweep: every entry not yet acked by `self` has its turn. */
    method RelayPending(self: DeviceId, relay: Relay) returns (changed: bool, ghost relayed: set<string>)
      modifies this
      ensures entries == AckedSoFar(old(entries), self, relay, {})
      ensures relayed == NewlyRelayed(old(entries), self, relay)
      ensures changed <==> relayed != {}
    {
      hide AckedSoFar, NewlyRelayed, Acked;
      changed, relayed := false, {};
      ghost var start := entries;
      var todo := entries.Keys;
      RelayedNothing(start, self, relay);
      while todo != {}
        invariant todo <= start.Keys && entries == AckedSoFar(start, self, relay, todo)
        invariant relayed == NewlyRelayed(start, self, relay) - todo
        invariant changed <==> relayed != {}
        decreases |todo|
      {
        var k :| k in todo;
        AckStep(start, self, relay, todo, k);
        var e := entries[k];
        todo := todo - {k};
        if self !in e.relayedBy {
          var outcome := relay(k, e);
          if outcome.Relayed? {
            entries := entries[k := e.(relayedBy := e.relayedBy + {self})];
            changed := true;
            relayed := relayed + {k};
          }
        }
      }
    }

    /** `deposit_pending_retires`: one pass over all depositable communities and
        revoked devices, inserting once per vacant key; `mint` signs a deposit. */
    method DepositPendingRetires(communities: seq<Bytes16>, retired: seq<DeviceId>,
                                 mint: (nat, nat) -> Option<Minted>)
      returns (changed: bool)
      modifies this
      ensures DepositPass(old(entries), entries, communities, retired, mint)
      ensures changed <==> entries != old(entries)
    {
      changed := false;
      ghost var start := entries;
      PassStarts(start, communities, retired, mint);
      if retired == [] || communities == [] {
        return;
      }
      hide PassUpTo, DepositPass;
      for i := 0 to |communities|
        invariant PassUpTo(start, entries, communities, retired, mint, i, 0)
        invariant changed <==> entries != start
      {
        for j := 0 to |retired|
          invariant PassUpTo(start, entries, communities, retired, mint, i, j)
          invariant changed <==> entries != start
        {
          var key := RetireKey(communities[i], retired[j]);
          PassStep(start, entries, communities, retired, mint, i, j);
          if key !in entries {
            match mint(i, j) {
              case Some(m) =>
                entries := entries[key := IntroEntry(m.signedEvent, communities[i], m.at, {})];
                changed := true;
              case None =>
            }
          }
        }
        PassRow(start, entries, communities, retired, mint, i);
      }
      PassEnds(start, entries, communities, retired, mint);
    }
  }

  /** `b` has every entry of `a`, with at least its acks. */
  predicate Grown(a: Doc, b: Doc) {
    && a.Keys <= b.Keys
    && forall k :: k in a ==> a[k].relayedBy <= b[k].relayedBy && b[k] == a[k].(relayedBy := b[k].relayedBy)
  }

  lemma MergeNothing(start: Doc)
    ensures Merge(start, map[]) == start && Grown(start, start)
  {
    var none: Doc := map[];
    assert Merge(start, none).Keys == start.Keys;
    assert forall k :: k in start ==> Merge(start, none)[k] == start[k];
  }

  lemma GrownAntisymmetric(a: Doc, b: Doc)
    requires Grown(a, b) && Grown(b, a)
    ensures a == b
  {
    forall k | k in a ensures a[k] == b[k] {
      assert a[k].relayedBy == b[k].relayedBy;
    }
  }

  lemma GrownTransitive(a: Doc, b: Doc, c: Doc)
    requires Grown(a, b) && Grown(b, c)
    ensures Grown(a, c)
  {
  }

  /** Merging one more remote entry, and why a later entry never undoes a change. */
  lemma MergeStep(start: Doc, remote: Doc, todo: set<string>, k: string, before: Doc, after: Doc)
    requires k in todo && todo <= remote.Keys
    requires before == Merge(start, remote - todo) && Grown(start, before)
    requires after == before[k := if k in before then MergedEntry(before[k], remote[k]) else remote[k]]
    ensures after == Merge(start, remote - (todo - {k})) && Grown(start, after)
    ensures after != start <==> before != start || after != before
  {
    var part, more := remote - todo, remote - (todo - {k});
    assert more.Keys == part.Keys + {k};
    assert k in before <==> k in start;
    assert k in start ==> before[k] == start[k];
    assert Grown(before, after);
    GrownTransitive(start, before, after);
    if after == start {
      GrownAntisymmetric(start, before);
    }
    forall x | x in after ensures x in Merge(start, more) && after[x] == Merge(start, more)[x] {
      if x != k {
        assert x in more <==> x in part;
      }
    }
    assert after.Keys == Merge(start, more).Keys;
  }

  lemma RelayedNothing(doc: Doc, self: DeviceId, relay: Relay)
    ensures AckedSoFar(doc, self, relay, doc.Keys) == doc
    ensures NewlyRelayed(doc, self, relay) - doc.Keys == {}
  {
  }

  /** One entry's turn in the relay loop. */
  lemma AckStep(doc: Doc, self: DeviceId, relay: Relay, todo: set<string>, k: string)
    requires k in todo && todo <= doc.Keys
    ensures var before, after := AckedSoFar(doc, self, relay, todo), AckedSoFar(doc, self, relay, todo - {k});
            var e, news := doc[k], NewlyRelayed(doc, self, relay);
            && k in before && before[k] == e
            && (self !in e.relayedBy && relay(k, e).Relayed? ==>
                  && after == before[k := e.(relayedBy := e.relayedBy + {self})]
                  && news - (todo - {k}) == news - todo + {k})
            && (self in e.relayedBy || !relay(k, e).Relayed? ==>
                  && after == before
                  && news - (todo - {k}) == news - todo)
  {
  }

  /** After the retain pass the document is the specified sweep, and it differs
      from the start exactly if something was relayed or removed. */
  lemma Retained(start: Doc, acked: Doc, after: Doc, self: DeviceId, relay: Relay, enrolled: set<DeviceId>,
                 nowMs: u64, relayed: set<string>)
    requires acked == AckedSoFar(start, self, relay, {})
    requires after == map k | k in acked && !(Expired(nowMs, acked[k]) || Covered(enrolled, start[k])) :: acked[k]
    requires relayed == NewlyRelayed(start, self, relay)
    ensures after == Sweep(start, self, relay, enrolled, nowMs)
    ensures after != start <==> relayed != {} || |after| != |acked|
  {
    assert after.Keys <= acked.Keys == start.Keys;
    assert |after| == |after.Keys| && |acked| == |acked.Keys|;
    SubsetSize(after.Keys, acked.Keys);
    if relayed != {} {
      var k :| k in relayed;
      assert k in after ==> after[k].relayedBy != start[k].relayedBy;
    } else {
      forall k | k in start ensures Acked(self, relay, k, start[k]) == start[k] {
        assert k !in NewlyRelayed(start, self, relay);
      }
    }
  }

  predicate Before(i: nat, j: nat, i': nat, j': nat) {
    i' < i || (i' == i && j' < j)
  }

  /** The pair (i, j) is the first whose retire key is `k` and that can be signed. */
  predicate FirstSigned(communities: seq<Bytes16>, retired: seq<DeviceId>, mint: (nat, nat) -> Option<Minted>,
                        k: string, i: nat, j: nat)
  {
    && i < |communities| && j < |retired| && k == RetireKey(communities[i], retired[j]) && mint(i, j).Some?
    && forall a: nat, b: nat {:trigger mint(a, b)} ::
         a < |communities| && b < |retired| && Before(i, j, a, b) && RetireKey(communities[a], retired[b]) == k ==>
           mint(a, b).None?
  }

  /** Entry `k` carries what the first pair that can be signed under it minted: the
      event, the community, the clock, and no ack. */
  ghost predicate FreshAt(e: IntroEntry, communities: seq<Bytes16>, retired: seq<DeviceId>,
                    mint: (nat, nat) -> Option<Minted>, k: string)
  {
    exists i: nat, j: nat :: FirstSigned(communities, retired, mint, k, i, j)
      && e.signedEvent == mint(i, j).value.signedEvent && e.communityId == communities[i]
      && e.depositedAt == mint(i, j).value.at && e.relayedBy == {}
  }

  /** The pass has handled every pair before position (i, j). */
  ghost predicate PassUpTo(start: Doc, now: Doc, communities: seq<Bytes16>, retired: seq<DeviceId>,
                     mint: (nat, nat) -> Option<Minted>, i: nat, j: nat)
    requires i <= |communities| && j <= |retired|
  {
    && start.Keys <= now.Keys
    && (forall k :: k in start ==> now[k] == start[k])
    && (forall k :: k in now && k !in start ==> FreshAt(now[k], communities, retired, mint, k))
    && (forall i': nat, j': nat {:trigger mint(i', j')} ::
          i' < |communities| && j' < |retired| && Before(i, j, i', j') && mint(i', j').Some? ==>
            RetireKey(communities[i'], retired[j']) in now)
  }

  /** What a deposit pass does: old entries stay, every signable retire key is
      present afterwards, and a new entry is a fresh deposit without acks. */
  ghost predicate DepositPass(start: Doc, now: Doc, communities: seq<Bytes16>, retired: seq<DeviceId>,
                        mint: (nat, nat) -> Option<Minted>)
  {
    && start.Keys <= now.Keys
    && (forall k :: k in start ==> now[k] == start[k])
    && (forall k :: k in now && k !in start ==> FreshAt(now[k], communities, retired, mint, k))
    && (forall i': nat, j': nat {:trigger mint(i', j')} ::
          i' < |communities| && j' < |retired| && mint(i', j').Some? ==>
            RetireKey(communities[i'], retired[j']) in now)
  }

  lemma PassStarts(start: Doc, communities: seq<Bytes16>, retired: seq<DeviceId>, mint: (nat, nat) -> Option<Minted>)
    ensures PassUpTo(start, start, communities, retired, mint, 0, 0)
    ensures retired == [] || communities == [] ==> DepositPass(start, start, communities, retired, mint)
  {
  }

  lemma PassRow(start: Doc, now: Doc, communities: seq<Bytes16>, retired: seq<DeviceId>,
                mint: (nat, nat) -> Option<Minted>, i: nat)
    requires i < |communities| && PassUpTo(start, now, communities, retired, mint, i, |retired|)
    ensures PassUpTo(start, now, communities, retired, mint, i + 1, 0)
    ensures start.Keys <= now.Keys && forall k :: k in start ==> now[k] == start[k]
  {
    hide FreshAt, RetireKey;
  }

  lemma PassEnds(start: Doc, now: Doc, communities: seq<Bytes16>, retired: seq<DeviceId>,
                 mint: (nat, nat) -> Option<Minted>)
    requires PassUpTo(start, now, communities, retired, mint, |communities|, 0)
    ensures DepositPass(start, now, communities, retired, mint)
  {
    hide FreshAt, RetireKey;
  }

  /** One pair's turn: a vacant key that can be signed gets what it minted. */
  lemma PassStep(start: Doc, now: Doc, communities: seq<Bytes16>, retired: seq<DeviceId>,
                 mint: (nat, nat) -> Option<Minted>, i: nat, j: nat)
    requires i < |communities| && j < |retired| && PassUpTo(start, now, communities, retired, mint, i, j)
    ensures var key := RetireKey(communities[i], retired[j]);
            && (key in now || mint(i, j).None? ==> PassUpTo(start, now, communities, retired, mint, i, j + 1))
            && (key !in now && mint(i, j).Some? ==>
                  var m := mint(i, j).value;
                  && key !in start
                  && PassUpTo(start, now[key := IntroEntry(m.signedEvent, communities[i], m.at, {})],
                              communities, retired, mint, i, j + 1))
  {
    var key := RetireKey(communities[i], retired[j]);
    hide *;
    if key in now || mint(i, j).None? {
      PassOver(start, now, communities, retired, mint, i, j);
    } else {
      var m := mint(i, j).value;
      FirstOne(start, now, communities, retired, mint, i, j);
      var e := IntroEntry(m.signedEvent, communities[i], m.at, {});
      FirstIsFresh(communities, retired, mint, key, i, j);
      PassInsert(start, now, communities, retired, mint, i, j, e);
    }
  }

  lemma FirstIsFresh(communities: seq<Bytes16>, retired: seq<DeviceId>, mint: (nat, nat) -> Option<Minted>,
                     k: string, i: nat, j: nat)
    requires FirstSigned(communities, retired, mint, k, i, j)
    ensures var m := mint(i, j).value;
            FreshAt(IntroEntry(m.signedEvent, communities[i], m.at, {}), communities, retired, mint, k)
  {
  }

  lemma PassOver(start: Doc, now: Doc, communities: seq<Bytes16>, retired: seq<DeviceId>,
                 mint: (nat, nat) -> Option<Minted>, i: nat, j: nat)
    requires i < |communities| && j < |retired| && PassUpTo(start, now, communities, retired, mint, i, j)
    requires RetireKey(communities[i], retired[j]) in now || mint(i, j).None?
    ensures PassUpTo(start, now, communities, retired, mint, i, j + 1)
  {
    hide FreshAt, RetireKey;
  }

  lemma PassInsert(start: Doc, now: Doc, communities: seq<Bytes16>, retired: seq<DeviceId>,
                   mint: (nat, nat) -> Option<Minted>, i: nat, j: nat, e: IntroEntry)
    requires i < |communities| && j < |retired| && PassUpTo(start, now, communities, retired, mint, i, j)
    requires RetireKey(communities[i], retired[j]) !in now
    requires FreshAt(e, communities, retired, mint, RetireKey(communities[i], retired[j]))
    ensures RetireKey(communities[i], retired[j]) !in start
    ensures PassUpTo(start, now[RetireKey(communities[i], retired[j]) := e], communities, retired, mint, i, j + 1)
  {
    hide FreshAt, RetireKey;
  }

  lemma FirstOne(start: Doc, now: Doc, communities: seq<Bytes16>, retired: seq<DeviceId>,
                 mint: (nat, nat) -> Option<Minted>, i: nat, j: nat)
    requires i < |communities| && j < |retired| && PassUpTo(start, now, communities, retired, mint, i, j)
    requires RetireKey(communities[i], retired[j]) !in now && mint(i, j).Some?
    ensures FirstSigned(communities, retired, mint, RetireKey(communities[i], retired[j]), i, j)
  {
    hide FreshAt, RetireKey;
  }

  // ----- how long an entry stays -----

  /** A sweep removes exactly the entries that every enrolled device had acked when
      it began and those deposited more than thirty days ago; of the others it
      changes nothing but its own device's ack, which it adds when the relay
      succeeds. */
  lemma SweepRemoves(doc: Doc, self: DeviceId, relay: Relay, enrolled: set<DeviceId>, nowMs: u64, k: string)
    requires k in doc
    ensures var swept, e := Sweep(doc, self, relay, enrolled, nowMs), doc[k];
            && (k !in swept <==>
                  (enrolled != {} && enrolled <= e.relayedBy) || e.depositedAt.wallMs + 2_592_000_000 < nowMs)
            && (k in swept ==>
                  && swept[k].signedEvent == e.signedEvent && swept[k].communityId == e.communityId
                  && swept[k].depositedAt == e.depositedAt
                  && forall d :: d in swept[k].relayedBy
                       <==> d in e.relayedBy || (d == self && relay(k, e) == Relayed))
  {
  }

  /** A fresh retirement outlives every sweep of the thirty days after its minted
      clock, whoever is enrolled. */
  lemma DepositOutlivesSweeps(start: Doc, now: Doc, communities: seq<Bytes16>, retired: seq<DeviceId>,
                              mint: (nat, nat) -> Option<Minted>, k: string,
                              self: DeviceId, relay: Relay, enrolled: set<DeviceId>, nowMs: u64)
    requires DepositPass(start, now, communities, retired, mint) && k in now && k !in start
    ensures exists i: nat, j: nat :: FirstSigned(communities, retired, mint, k, i, j)
              && (k in Sweep(now, self, relay, enrolled, nowMs)
                  <==> nowMs <= mint(i, j).value.at.wallMs + 2_592_000_000)
  {
    SweepRemoves(now, self, relay, enrolled, nowMs, k);
    hide Sweep, RetireKey;
    var i: nat, j: nat :| FirstSigned(communities, retired, mint, k, i, j)
      && now[k].depositedAt == mint(i, j).value.at && now[k].relayedBy == {};
    assert !(enrolled != {} && enrolled <= now[k].relayedBy);
  }
}
