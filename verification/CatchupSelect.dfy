/** The rest of committee catch-up: quorum evidence, reset chains, the whole
    responder selection and the requester's grouping of reply frames
    (`src-tauri/src/community_dfrost_catchup.rs`). */
module CatchupSelect {
  import opened Prelude
  import opened CatchupBeacons
  import opened CatchupPaging
  import Key = ReconcileKey

  const MAX_RESET_CHAIN_LINKS_PER_RESPONSE := 8

  datatype DkgPayload = DkgPayload(epoch: u64, threshold: u16)

  type DkgDecoder = seq<byte> -> Option<DkgPayload>

  // ----- quorum evidence of one epoch -----

  predicate Attests(decode: DkgDecoder, e: CommitteeEvent, epoch: u64) {
    e.kind.DkgComplete? && decode(e.payload).Some? && decode(e.payload).value.epoch == epoch
  }

  /** Ordered-map insertion keyed by actor: a later event replaces an earlier one. */
  function PutByActor(s: seq<CommitteeEvent>, e: CommitteeEvent): seq<CommitteeEvent> {
    if s == [] || e.actor < s[0].actor then [e] + s
    else if e.actor == s[0].actor then [e] + s[1..]
    else [s[0]] + PutByActor(s[1..], e)
  }

  predicate ActorsAscend(s: seq<CommitteeEvent>) {
    forall i, j :: 0 <= i < j < |s| ==> s[i].actor < s[j].actor
  }

  /** Position `i` holds its actor's last attestation of the epoch. */
  predicate LastFor(decode: DkgDecoder, log: seq<CommitteeEvent>, epoch: u64, i: int) {
    && 0 <= i < |log| && Attests(decode, log[i], epoch)
    && forall j :: i < j < |log| && Attests(decode, log[j], epoch) ==> log[j].actor != log[i].actor
  }

  ghost predicate Newest(decode: DkgDecoder, log: seq<CommitteeEvent>, epoch: u64, e: CommitteeEvent) {
    exists i :: LastFor(decode, log, epoch, i) && log[i] == e
  }

  lemma {:induction false} PutByActorMember(s: seq<CommitteeEvent>, e: CommitteeEvent, x: CommitteeEvent)
    requires ActorsAscend(s)
    ensures x in PutByActor(s, e) <==> x == e || (x in s && x.actor != e.actor)
  {
    if s != [] {
      assert s == [s[0]] + s[1..];
      if e.actor > s[0].actor {
        PutByActorMember(s[1..], e, x);
      }
    }
  }

  lemma {:induction false} PutByActorAscends(s: seq<CommitteeEvent>, e: CommitteeEvent)
    requires ActorsAscend(s)
    ensures ActorsAscend(PutByActor(s, e))
  {
    if s != [] && e.actor > s[0].actor {
      PutByActorAscends(s[1..], e);
      var rest := PutByActor(s[1..], e);
      forall j | 0 <= j < |rest| ensures s[0].actor < rest[j].actor {
        PutByActorMember(s[1..], e, rest[j]);
      }
    }
  }

  method DkEventsForEpoch(decode: DkgDecoder, log: seq<CommitteeEvent>, epoch: u64) returns (dk: seq<CommitteeEvent>)
    ensures ActorsAscend(dk)
    ensures forall e :: e in dk <==> Newest(decode, log, epoch, e)
  {
    dk := [];
    for i := 0 to |log|
      invariant ActorsAscend(dk)
      invariant forall e :: e in dk <==> Newest(decode, log[..i], epoch, e)
    {
      ghost var before := dk;
      forall e ensures Newest(decode, log[..i + 1], epoch, e) <==>
          if Attests(decode, log[i], epoch) then
            e == log[i] || (Newest(decode, log[..i], epoch, e) && e.actor != log[i].actor)
          else Newest(decode, log[..i], epoch, e)
      {
        NewestStep(decode, log, epoch, i, e);
      }
      if !log[i].kind.DkgComplete? {
        continue;
      }
      var payload := decode(log[i].payload);
      if payload.None? || payload.value.epoch != epoch {
        continue;
      }
      PutByActorAscends(dk, log[i]);
      forall e ensures e in PutByActor(dk, log[i]) <==> e == log[i] || (e in dk && e.actor != log[i].actor) {
        PutByActorMember(dk, log[i], e);
      }
      dk := PutByActor(dk, log[i]);
    }
    assert log[..|log|] == log;
  }

  lemma LastForStep(decode: DkgDecoder, log: seq<CommitteeEvent>, epoch: u64, i: nat, k: nat)
    requires k <= i < |log|
    ensures LastFor(decode, log[..i + 1], epoch, k) <==>
        if k == i then Attests(decode, log[i], epoch)
        else LastFor(decode, log[..i], epoch, k) && (Attests(decode, log[i], epoch) ==> log[i].actor != log[k].actor)
  {
    hide Attests;
    var now, before := log[..i + 1], log[..i];
    assert now[i] == log[i] && forall j :: 0 <= j < i ==> now[j] == before[j];
  }

  lemma NewestStep(decode: DkgDecoder, log: seq<CommitteeEvent>, epoch: u64, i: nat, e: CommitteeEvent)
    requires i < |log|
    ensures Newest(decode, log[..i + 1], epoch, e) <==>
        if Attests(decode, log[i], epoch) then
          e == log[i] || (Newest(decode, log[..i], epoch, e) && e.actor != log[i].actor)
        else Newest(decode, log[..i], epoch, e)
  {
    var now, before := log[..i + 1], log[..i];
    LastForStep(decode, log, epoch, i, i);
    LastForInside(decode, now, epoch);
    LastForInside(decode, before, epoch);
    hide LastFor, Attests;
    if k :| LastFor(decode, now, epoch, k) && now[k] == e {
      LastForStep(decode, log, epoch, i, k);
      assert k < i ==> before[k] == e;
    }
    if k :| LastFor(decode, before, epoch, k) && before[k] == e {
      LastForStep(decode, log, epoch, i, k);
      assert now[k] == e;
    }
    assert now[i] == log[i];
  }

  lemma LastForInside(decode: DkgDecoder, log: seq<CommitteeEvent>, epoch: u64)
    ensures forall k :: LastFor(decode, log, epoch, k) ==> 0 <= k < |log|
  {
  }

  // ----- trimming to a quorum -----

  function WithPayload(dk: seq<CommitteeEvent>, payload: seq<byte>): seq<CommitteeEvent> {
    if dk == [] then []
    else (if dk[0].payload == payload then [dk[0]] else []) + WithPayload(dk[1..], payload)
  }

  function InsertPayload(ps: seq<seq<byte>>, p: seq<byte>): seq<seq<byte>> {
    if ps == [] || Key.LexLt(p, ps[0]) then [p] + ps
    else if p == ps[0] then ps
    else [ps[0]] + InsertPayload(ps[1..], p)
  }

  /** The distinct payloads in byte order: the keys of the grouping map. */
  function Payloads(dk: seq<CommitteeEvent>): seq<seq<byte>> {
    if dk == [] then [] else InsertPayload(Payloads(dk[1..]), dk[0].payload)
  }

  /** `reduce` over the groups in key order: strictly larger groups win. */
  function LargestGroup(dk: seq<CommitteeEvent>, ps: seq<seq<byte>>): seq<byte>
    requires ps != []
  {
    var n := |ps| - 1;
    if n == 0 then ps[0]
    else
      var best := LargestGroup(dk, ps[..n]);
      if |WithPayload(dk, ps[n])| > |WithPayload(dk, best)| then ps[n] else best
  }

  function TrimToQuorum(decode: DkgDecoder, dk: seq<CommitteeEvent>): seq<CommitteeEvent> {
    var ps := Payloads(dk);
    if dk == [] || ps == [] then dk
    else
      var best := LargestGroup(dk, ps);
      match decode(best)
      case None => dk
      case Some(p) =>
        var g := WithPayload(dk, best);
        g[..Least(p.threshold, |g|)]
  }

  predicate Ascends(ps: seq<seq<byte>>) {
    forall i, j :: 0 <= i < j < |ps| ==> Key.LexLt(ps[i], ps[j])
  }

  lemma {:induction false} InsertPayloadSpec(ps: seq<seq<byte>>, p: seq<byte>)
    requires Ascends(ps)
    ensures Ascends(InsertPayload(ps, p))
    ensures forall q :: q in InsertPayload(ps, p) <==> q in ps || q == p
  {
    if ps != [] {
      assert ps == [ps[0]] + ps[1..];
      Key.LexTotal(p, ps[0]);
      if Key.LexLt(p, ps[0]) {
        forall j | 0 <= j < |ps| ensures Key.LexLt(p, ps[j]) {
          if j > 0 { Key.LexTrans(p, ps[0], ps[j]); }
        }
      } else if p != ps[0] {
        InsertPayloadSpec(ps[1..], p);
        var rest := InsertPayload(ps[1..], p);
        forall j | 0 <= j < |rest| ensures Key.LexLt(ps[0], rest[j]) {
          assert rest[j] in InsertPayload(ps[1..], p);
          if rest[j] != p {
            var i :| 0 <= i < |ps[1..]| && ps[1..][i] == rest[j];
            assert ps[i + 1] == rest[j];
          }
        }
      }
    }
  }

  lemma {:induction false} PayloadsSpec(dk: seq<CommitteeEvent>)
    ensures Ascends(Payloads(dk))
    ensures forall p :: p in Payloads(dk) <==> exists e :: e in dk && e.payload == p
  {
    if dk != [] {
      PayloadsSpec(dk[1..]);
      InsertPayloadSpec(Payloads(dk[1..]), dk[0].payload);
      assert dk == [dk[0]] + dk[1..];
    }
  }

  /** No group is larger, and none of equal size has a smaller payload. */
  predicate Plurality(dk: seq<CommitteeEvent>, ps: seq<seq<byte>>, best: seq<byte>) {
    && best in ps
    && forall q :: q in ps ==>
         || |WithPayload(dk, q)| < |WithPayload(dk, best)|
         || (|WithPayload(dk, q)| == |WithPayload(dk, best)| && !Key.LexLt(q, best))
  }

  lemma {:induction false} LargestGroupIsPlurality(dk: seq<CommitteeEvent>, ps: seq<seq<byte>>)
    requires ps != [] && Ascends(ps)
    ensures Plurality(dk, ps, LargestGroup(dk, ps))
  {
    var n := |ps| - 1;
    Key.LexTotal(ps[n], ps[n]);
    if n > 0 {
      LargestGroupIsPlurality(dk, ps[..n]);
      var prior := LargestGroup(dk, ps[..n]);
      var k :| 0 <= k < n && ps[k] == prior;
      Key.LexTotal(prior, ps[n]);
      forall q | q in ps
        ensures || |WithPayload(dk, q)| < |WithPayload(dk, LargestGroup(dk, ps))|
                || (&& |WithPayload(dk, q)| == |WithPayload(dk, LargestGroup(dk, ps))|
                    && !Key.LexLt(q, LargestGroup(dk, ps)))
      {
        if q != ps[n] {
          assert q in ps[..n];
        }
      }
    }
  }

  lemma {:induction false} WithPayloadSpec(dk: seq<CommitteeEvent>, p: seq<byte>)
    ensures forall e :: e in WithPayload(dk, p) <==> e in dk && e.payload == p
    ensures ActorsAscend(dk) ==> ActorsAscend(WithPayload(dk, p))
  {
    if dk != [] {
      WithPayloadSpec(dk[1..], p);
      assert dk == [dk[0]] + dk[1..];
    }
  }

  /** A trimmed quorum is unanimous on a plurality payload, ascending by actor,
      and holds as many of its attesters as the payload's threshold asks. */
  lemma TrimIsQuorum(decode: DkgDecoder, dk: seq<CommitteeEvent>, epoch: u64) returns (best: seq<byte>)
    requires dk != [] && ActorsAscend(dk) && forall e :: e in dk ==> Attests(decode, e, epoch)
    ensures Plurality(dk, Payloads(dk), best) && decode(best).Some?
    ensures var q := TrimToQuorum(decode, dk);
            && ActorsAscend(q)
            && (forall e :: e in q ==> e in dk && e.payload == best)
            && |q| == Least(decode(best).value.threshold, |WithPayload(dk, best)|)
            && (|q| == |WithPayload(dk, best)| ==> forall e :: e in dk && e.payload == best ==> e in q)
  {
    PayloadsSpec(dk);
    assert dk[0] in dk;
    best := LargestGroup(dk, Payloads(dk));
    LargestGroupIsPlurality(dk, Payloads(dk));
    WithPayloadSpec(dk, best);
  }

  /** Of the attesters of its payload a trimmed quorum keeps those with the lowest
      actors. */
  lemma TrimKeepsLowest(decode: DkgDecoder, dk: seq<CommitteeEvent>, epoch: u64, e: CommitteeEvent, x: CommitteeEvent)
    requires dk != [] && ActorsAscend(dk) && forall e :: e in dk ==> Attests(decode, e, epoch)
    requires e in TrimToQuorum(decode, dk) && x in dk && x.payload == e.payload && x !in TrimToQuorum(decode, dk)
    ensures e.actor < x.actor
  {
    PayloadsSpec(dk);
    assert dk[0] in dk;
    var best := LargestGroup(dk, Payloads(dk));
    LargestGroupIsPlurality(dk, Payloads(dk));
    WithPayloadSpec(dk, best);
    var g, q := WithPayload(dk, best), TrimToQuorum(decode, dk);
    hide TrimToQuorum, WithPayload, Payloads, LargestGroup, Plurality, Attests;
    assert q <= g by {
      TrimIsPrefix(decode, dk);
    }
    var i :| 0 <= i < |q| && q[i] == e;
    assert g[i] == e && e in g;
    var j :| 0 <= j < |g| && g[j] == x;
    PrefixMember(q, g, j);
  }

  lemma PrefixMember(q: seq<CommitteeEvent>, g: seq<CommitteeEvent>, j: nat)
    requires q <= g && j < |g|
    ensures j < |q| ==> g[j] in q
  {
  }

  lemma TrimIsPrefix(decode: DkgDecoder, dk: seq<CommitteeEvent>)
    requires dk != [] && Payloads(dk) != [] && decode(LargestGroup(dk, Payloads(dk))).Some?
    ensures TrimToQuorum(decode, dk) <= WithPayload(dk, LargestGroup(dk, Payloads(dk)))
  {
  }

  // ----- reset chains -----

  type ResetId = Bytes32

  /** The reset a marker event's payload names, if it decodes. */
  type ResetDecoder = seq<byte> -> Option<ResetId>

  datatype VkEntry = VkEntry(oldEpoch: u64, resetId: ResetId)

  datatype ResetChainLink = ResetChainLink(marker: CommitteeEvent, dkEvents: seq<CommitteeEvent>)

  datatype Decoders = Decoders(beacon: BeaconDecoder, dkg: DkgDecoder, reset: ResetDecoder)

  predicate Marks(d: Decoders, e: CommitteeEvent, id: ResetId) {
    e.kind.ResetMarker? && d.reset(e.payload) == Some(id)
  }

  /** The first marker of the reset. */
  predicate FirstMarker(d: Decoders, log: seq<CommitteeEvent>, id: ResetId, i: int) {
    0 <= i < |log| && Marks(d, log[i], id) && forall j :: 0 <= j < i ==> !Marks(d, log[j], id)
  }

  function FindMarker(d: Decoders, log: seq<CommitteeEvent>, id: ResetId): Option<CommitteeEvent> {
    if log == [] then None
    else if Marks(d, log[0], id) then Some(log[0])
    else FindMarker(d, log[1..], id)
  }

  /** The history entries a requester at `epoch` still has to cross and for which
      the responder retains a marker. */
  function Owed(d: Decoders, log: seq<CommitteeEvent>, history: seq<VkEntry>, epoch: u64): seq<VkEntry> {
    if history == [] then []
    else
      (if epoch <= history[0].oldEpoch && FindMarker(d, log, history[0].resetId).Some? then [history[0]] else [])
      + Owed(d, log, history[1..], epoch)
  }

  /** A link heals one owed reset: its marker and a quorum of the next epoch. */
  ghost predicate Heals(d: Decoders, log: seq<CommitteeEvent>, entry: VkEntry, link: ResetChainLink) {
    && FindMarker(d, log, entry.resetId) == Some(link.marker)
    && exists dk :: ActorsAscend(dk) && (forall e :: e in dk <==> Newest(d.dkg, log, SatAdd(entry.oldEpoch, 1), e))
         && link.dkEvents == TrimToQuorum(d.dkg, dk)
  }

  lemma {:induction false} FindMarkerSpec(d: Decoders, log: seq<CommitteeEvent>, id: ResetId)
    ensures match FindMarker(d, log, id)
            case None => forall e :: e in log ==> !Marks(d, e, id)
            case Some(m) => m in log && Marks(d, m, id) && exists i :: FirstMarker(d, log, id, i) && log[i] == m
  {
    if log != [] {
      FindMarkerSpec(d, log[1..], id);
      assert log == [log[0]] + log[1..];
      var found := FindMarker(d, log, id);
      if found.Some? && !Marks(d, log[0], id) {
        var i :| FirstMarker(d, log[1..], id, i) && log[1..][i] == found.value;
        assert log[i + 1] == found.value;
        assert forall j :: 0 < j < i + 1 ==> log[j] == log[1..][j - 1];
        assert FirstMarker(d, log, id, i + 1);
      }
    }
  }

  /** The chain heals the first owed resets in history order, up to the cap. */
  method SelectResetChain(d: Decoders, log: seq<CommitteeEvent>, history: seq<VkEntry>, epoch: u64)
    returns (links: seq<ResetChainLink>)
    ensures var owed := Owed(d, log, history, epoch);
            && |links| == Least(MAX_RESET_CHAIN_LINKS_PER_RESPONSE, |owed|)
            && forall k :: 0 <= k < |links| ==> Heals(d, log, owed[k], links[k])
  {
    links := [];
    ghost var done: seq<VkEntry> := [];
    ghost var owed := Owed(d, log, history, epoch);
    hide Heals, FindMarker;
    for i := 0 to |history|
      invariant done + Owed(d, log, history[i..], epoch) == owed
      invariant |links| == |done| <= MAX_RESET_CHAIN_LINKS_PER_RESPONSE
      invariant forall k :: 0 <= k < |links| ==> Heals(d, log, done[k], links[k])
    {
      if |links| >= MAX_RESET_CHAIN_LINKS_PER_RESPONSE {
        return;
      }
      DropOne(history, i);
      var entry := history[i];
      var marker := FindMarker(d, log, entry.resetId);
      if epoch > entry.oldEpoch || marker.None? {
        assert Owed(d, log, history[i..], epoch) == Owed(d, log, history[i + 1..], epoch);
        continue;
      }
      ConcatAssociates(done, [entry], Owed(d, log, history[i + 1..], epoch));
      var dk := DkEventsForEpoch(d.dkg, log, SatAdd(entry.oldEpoch, 1));
      var link := ResetChainLink(marker.value, TrimToQuorum(d.dkg, dk));
      HealsBy(d, log, entry, link, dk);
      links := links + [link];
      done := done + [entry];
    }
  }

  lemma HealsBy(d: Decoders, log: seq<CommitteeEvent>, entry: VkEntry, link: ResetChainLink, dk: seq<CommitteeEvent>)
    requires FindMarker(d, log, entry.resetId) == Some(link.marker)
    requires ActorsAscend(dk) && forall e :: e in dk <==> Newest(d.dkg, log, SatAdd(entry.oldEpoch, 1), e)
    requires link.dkEvents == TrimToQuorum(d.dkg, dk)
    ensures Heals(d, log, entry, link)
  {
  }

  lemma {:induction false} OwedMember(d: Decoders, log: seq<CommitteeEvent>, history: seq<VkEntry>, epoch: u64,
                                      x: VkEntry)
    ensures x in Owed(d, log, history, epoch)
       <==> x in history && epoch <= x.oldEpoch && exists e :: e in log && Marks(d, e, x.resetId)
  {
    FindMarkerSpec(d, log, x.resetId);
    if history != [] {
      OwedMember(d, log, history[1..], epoch, x);
      assert history == [history[0]] + history[1..];
    }
  }

  /** The requester still has to cross the reset, and the log holds a marker of it. */
  predicate Owes(d: Decoders, log: seq<CommitteeEvent>, entry: VkEntry, epoch: u64) {
    epoch <= entry.oldEpoch && exists e :: e in log && Marks(d, e, entry.resetId)
  }

  lemma OwedStep(d: Decoders, log: seq<CommitteeEvent>, history: seq<VkEntry>, epoch: u64, k: nat)
    requires k < |history|
    ensures var rest := Owed(d, log, history[k + 1..], epoch);
            Owed(d, log, history[k..], epoch)
            == if Owes(d, log, history[k], epoch) then [history[k]] + rest else rest
  {
    DropOne(history, k);
    FindMarkerSpec(d, log, history[k].resetId);
    hide FindMarker, Marks;
  }

  /** The positions `at` from `k` on are those of the owed resets, in history order. */
  predicate OwedAt(d: Decoders, log: seq<CommitteeEvent>, history: seq<VkEntry>, epoch: u64, k: nat,
                   owed: seq<VkEntry>, at: seq<nat>)
  {
    && Increasing(at, k) && |at| == |owed|
    && (forall i :: 0 <= i < |at| ==> at[i] < |history| && owed[i] == history[at[i]])
    && (forall p :: k <= p < |history| ==> (p in at <==> Owes(d, log, history[p], epoch)))
  }

  lemma {:induction false} OwedFrom(d: Decoders, log: seq<CommitteeEvent>, history: seq<VkEntry>, epoch: u64, k: nat)
    returns (at: seq<nat>)
    requires k <= |history|
    ensures OwedAt(d, log, history, epoch, k, Owed(d, log, history[k..], epoch), at)
    decreases |history| - k
  {
    at := [];
    if k < |history| {
      hide *;
      OwedStep(d, log, history, epoch, k);
      at := OwedFrom(d, log, history, epoch, k + 1);
      OwedAtStep(d, log, history, epoch, k, Owed(d, log, history[k + 1..], epoch), at);
      if Owes(d, log, history[k], epoch) {
        at := [k] + at;
      }
    }
  }

  lemma OwedAtStep(d: Decoders, log: seq<CommitteeEvent>, history: seq<VkEntry>, epoch: u64, k: nat,
                   owed: seq<VkEntry>, at: seq<nat>)
    requires k < |history| && OwedAt(d, log, history, epoch, k + 1, owed, at)
    ensures if Owes(d, log, history[k], epoch) then OwedAt(d, log, history, epoch, k, [history[k]] + owed, [k] + at)
            else OwedAt(d, log, history, epoch, k, owed, at)
  {
    hide Owes;
    assert k !in at;
    forall p | k <= p < |history| ensures p in [k] + at <==> p == k || p in at {
    }
    IncreasingCons(k, at);
    var owed', at' := [history[k]] + owed, [k] + at;
    forall i | 0 <= i < |at'| ensures at'[i] < |history| && owed'[i] == history[at'[i]] {
      if i > 0 {
        assert at'[i] == at[i - 1] && owed'[i] == owed[i - 1];
      }
    }
  }

  /** Every reset the requester still has to cross and of which a marker is retained is
      owed, in history order. */
  lemma OwedInOrder(d: Decoders, log: seq<CommitteeEvent>, history: seq<VkEntry>, epoch: u64) returns (at: seq<nat>)
    ensures OwedAt(d, log, history, epoch, 0, Owed(d, log, history, epoch), at)
  {
    at := OwedFrom(d, log, history, epoch, 0);
    assert history[0..] == history;
  }

  // ----- the whole selection -----

  datatype CatchupRequest = CatchupRequest(epoch: u64, active: bool, beaconWatermark: Option<Hlc>)

  datatype CatchupStatus = CatchupStatus(epoch: u64, active: bool)

  datatype Responder = Responder(active: bool, currentEpoch: u64, history: seq<VkEntry>, log: seq<CommitteeEvent>)

  datatype CatchupSelection = CatchupSelection(
    status: CatchupStatus,
    dkEvents: seq<CommitteeEvent>,
    beacons: seq<CommitteeEvent>,
    resetChain: seq<ResetChainLink>)

  /** A requester active at the responder's epoch. */
  predicate Current(r: Responder, req: CatchupRequest) {
    req.active && req.epoch == r.currentEpoch
  }

  /** Silence means an inactive responder, or a current requester to whom no
      beacon and no reset is owed. */
  predicate NothingOwed(d: Decoders, r: Responder, req: CatchupRequest, maxBeacons: nat, nowMs: u64) {
    || !r.active
    || (&& Current(r, req)
        && Served(d.beacon, Admitted(r.log, nowMs), req.beaconWatermark, maxBeacons) == []
        && Owed(d, r.log, r.history, req.epoch) == [])
  }

  method SelectCatchup(d: Decoders, r: Responder, req: CatchupRequest, maxBeacons: nat, nowMs: u64)
    returns (selection: Option<CatchupSelection>)
    ensures selection.None? <==> NothingOwed(d, r, req, maxBeacons, nowMs)
    ensures selection.Some? ==>
              && selection.value.status == CatchupStatus(r.currentEpoch, true)
              && selection.value.beacons == Served(d.beacon, Admitted(r.log, nowMs), req.beaconWatermark, maxBeacons)
    ensures selection.Some? && (!req.active || req.epoch < r.currentEpoch) ==>
              && ActorsAscend(selection.value.dkEvents)
              && forall e :: e in selection.value.dkEvents <==> Newest(d.dkg, r.log, r.currentEpoch, e)
    ensures selection.Some? && req.active && req.epoch >= r.currentEpoch ==> selection.value.dkEvents == []
    ensures selection.Some? ==>
              var owed := Owed(d, r.log, r.history, req.epoch);
              && |selection.value.resetChain| == Least(MAX_RESET_CHAIN_LINKS_PER_RESPONSE, |owed|)
              && forall k :: 0 <= k < |selection.value.resetChain| ==>
                   Heals(d, r.log, owed[k], selection.value.resetChain[k])
  {
    hide Served, Owed, Heals, Newest, ActorsAscend;
    if !r.active {
      return None;
    }
    var beacons := SelectBeacons(d.beacon, r.log, req.beaconWatermark, maxBeacons, nowMs);
    var chain := SelectResetChain(d, r.log, r.history, req.epoch);
    if req.active && req.epoch == r.currentEpoch && |beacons| == 0 && |chain| == 0 {
      return None;
    }
    var dk: seq<CommitteeEvent> := [];
    if !req.active || req.epoch < r.currentEpoch {
      dk := DkEventsForEpoch(d.dkg, r.log, r.currentEpoch);
    }
    return Some(CatchupSelection(CatchupStatus(r.currentEpoch, true), dk, beacons, chain));
  }

  /** A current requester of a responder without ties or owed resets, once paging
      is done, is answered with silence. */
  lemma CaughtUpIsSilent(d: Decoders, r: Responder, requester: seq<CommitteeEvent>, nowMs: u64, maxBeacons: nat,
                         rounds: nat)
    requires HlcOrdered(r.log) && HlcOrdered(requester) && Admitted(requester, nowMs) == []
    requires HlcDistinct(Admitted(r.log, nowMs)) && NoTies(d.beacon, Admitted(r.log, nowMs))
    requires Owed(d, r.log, r.history, r.currentEpoch) == []
    requires rounds * maxBeacons >= |Admitted(r.log, nowMs)|
    ensures var log := Rounds(d.beacon, r.log, requester, nowMs, maxBeacons, rounds);
            NothingOwed(d, r, CatchupRequest(r.currentEpoch, true, BeaconWatermarkOf(log, nowMs)), maxBeacons, nowMs)
  {
    PagingCompletes(d.beacon, r.log, requester, nowMs, maxBeacons, rounds);
  }

  // ----- grouping reply frames -----

  type ResponderId = x: int | 0 <= x < 0x1_0000_0000_0000_0000

  datatype CatchupBody =
    | Status(status: CatchupStatus)
    | DkEvidence(event: seq<byte>)
    | Beacon(event: seq<byte>)
    | ResetChain(links: seq<byte>)

  datatype CatchupFrame = CatchupFrame(responderId: ResponderId, body: CatchupBody)

  type Group = (ResponderId, seq<CatchupFrame>)

  /** The first `cap` distinct responders, in order of first appearance. */
  function AdmittedIds(frames: seq<CatchupFrame>, cap: nat): seq<ResponderId> {
    if frames == [] then []
    else
      var ids := AdmittedIds(frames[..|frames| - 1], cap);
      var id := frames[|frames| - 1].responderId;
      if id !in ids && |ids| < cap then ids + [id] else ids
  }

  function FramesOf(frames: seq<CatchupFrame>, id: ResponderId): seq<CatchupFrame> {
    if frames == [] then []
    else
      var f := frames[|frames| - 1];
      FramesOf(frames[..|frames| - 1], id) + if f.responderId == id then [f] else []
  }

  /** Each admitted responder with every frame it sent, in order. */
  function Grouped(frames: seq<CatchupFrame>, cap: nat): seq<Group> {
    var ids := AdmittedIds(frames, cap);
    seq(|ids|, i requires 0 <= i < |ids| => (ids[i], FramesOf(frames, ids[i])))
  }

  function DroppedCount(frames: seq<CatchupFrame>, ids: seq<ResponderId>): nat {
    if frames == [] then 0
    else DroppedCount(frames[..|frames| - 1], ids) + if frames[|frames| - 1].responderId in ids then 0 else 1
  }

  function Statuses(group: seq<CatchupFrame>): seq<CatchupStatus> {
    if group == [] then []
    else
      var b := group[|group| - 1].body;
      Statuses(group[..|group| - 1]) + if b.Status? then [b.status] else []
  }

  /** The groups with exactly one status frame, with that status. */
  function Usable(groups: seq<Group>): seq<(CatchupStatus, seq<CatchupFrame>)> {
    if groups == [] then []
    else
      var n := |groups| - 1;
      var statuses := Statuses(groups[n].1);
      Usable(groups[..n]) + if |statuses| == 1 then [(statuses[0], groups[n].1)] else []
  }

  method Position(groups: seq<Group>, id: ResponderId) returns (at: Option<nat>)
    ensures at.Some? ==> at.value < |groups| && groups[at.value].0 == id
    ensures at.None? ==> forall g :: g in groups ==> g.0 != id
  {
    for i := 0 to |groups|
      invariant forall j :: 0 <= j < i ==> groups[j].0 != id
    {
      if groups[i].0 == id {
        return Some(i);
      }
    }
    return None;
  }

  lemma {:induction false} AdmittedIdsDistinct(frames: seq<CatchupFrame>, cap: nat)
    ensures var ids := AdmittedIds(frames, cap);
            && |ids| <= cap
            && (forall i, j :: 0 <= i < j < |ids| ==> ids[i] != ids[j])
            && (|ids| < cap ==> forall f :: f in frames ==> f.responderId in ids)
  {
    if frames != [] {
      var n := |frames| - 1;
      AdmittedIdsDistinct(frames[..n], cap);
      assert frames == frames[..n] + [frames[n]];
    }
  }

  /** A responder the cap turned away, or not yet seen, has no admitted frame. */
  lemma {:induction false} UnadmittedHasNone(frames: seq<CatchupFrame>, cap: nat, id: ResponderId)
    requires id !in AdmittedIds(frames, cap) && |AdmittedIds(frames, cap)| < cap
    ensures FramesOf(frames, id) == []
  {
    if frames != [] {
      UnadmittedHasNone(frames[..|frames| - 1], cap, id);
    }
  }

  function Appended(groups: seq<Group>, at: nat, f: CatchupFrame): seq<Group>
    requires at < |groups|
  {
    groups[at := (groups[at].0, groups[at].1 + [f])]
  }

  /** One more frame joins its responder's group, opens a group while there is
      room, or is dropped. */
  lemma GroupStep(frames: seq<CatchupFrame>, i: nat, cap: nat)
    requires i < |frames|
    ensures var f, ids := frames[i], AdmittedIds(frames[..i], cap);
            var before, after := Grouped(frames[..i], cap), Grouped(frames[..i + 1], cap);
            && |before| == |ids| && (forall k :: 0 <= k < |ids| ==> before[k].0 == ids[k])
            && (f.responderId in ids ==>
                  forall k :: 0 <= k < |ids| && ids[k] == f.responderId ==> after == Appended(before, k, f))
            && (f.responderId !in ids && |ids| < cap ==> after == before + [(f.responderId, [f])])
            && (f.responderId !in ids && |ids| >= cap ==> after == before)
  {
    var f, ids := frames[i], AdmittedIds(frames[..i], cap);
    var before, after := Grouped(frames[..i], cap), Grouped(frames[..i + 1], cap);
    assert frames[..i + 1][..i] == frames[..i];
    AdmittedIdsDistinct(frames[..i], cap);
    forall k | 0 <= k < |ids|
      ensures f.responderId == ids[k] ==> after[k] == (before[k].0, before[k].1 + [f])
      ensures f.responderId != ids[k] ==> after[k] == before[k]
    {
      assert before[k] == (ids[k], FramesOf(frames[..i], ids[k]));
      assert after[k] == (ids[k], FramesOf(frames[..i + 1], ids[k]));
      assert FramesOf(frames[..i], ids[k]) + [] == FramesOf(frames[..i], ids[k]);
    }
    if f.responderId in ids {
      forall k | 0 <= k < |ids| && ids[k] == f.responderId ensures after == Appended(before, k, f) {
      }
    } else if |ids| < cap {
      UnadmittedHasNone(frames[..i], cap, f.responderId);
      assert FramesOf(frames[..i + 1], f.responderId) == [f];
      assert after == before + [(f.responderId, [f])];
    } else {
      assert after == before;
    }
  }

  lemma {:induction false} DroppedNone(frames: seq<CatchupFrame>, ids: seq<ResponderId>)
    requires forall f :: f in frames ==> f.responderId in ids
    ensures DroppedCount(frames, ids) == 0
  {
    if frames != [] {
      DroppedNone(frames[..|frames| - 1], ids);
    }
  }

  /** The frames counted as dropped are those of the responders not in `ids`. */
  lemma {:induction false} DroppedPositions(frames: seq<CatchupFrame>, ids: seq<ResponderId>)
    ensures DroppedCount(frames, ids) == |set p | 0 <= p < |frames| && frames[p].responderId !in ids|
  {
    if frames != [] {
      var n := |frames| - 1;
      DroppedPositions(frames[..n], ids);
      var before := set p | 0 <= p < n && frames[..n][p].responderId !in ids;
      var now := set p | 0 <= p < |frames| && frames[p].responderId !in ids;
      assert now == before + if frames[n].responderId in ids then {} else {n};
    }
  }

  lemma DroppedStep(frames: seq<CatchupFrame>, i: nat, cap: nat)
    requires i < |frames|
    ensures var ids := AdmittedIds(frames[..i], cap);
            DroppedCount(frames[..i + 1], AdmittedIds(frames[..i + 1], cap))
            == DroppedCount(frames[..i], ids) + if frames[i].responderId !in ids && |ids| >= cap then 1 else 0
  {
    var ids := AdmittedIds(frames[..i], cap);
    assert frames[..i + 1][..i] == frames[..i];
    AdmittedIdsDistinct(frames[..i], cap);
    if frames[i].responderId !in ids && |ids| < cap {
      DroppedNone(frames[..i], ids);
      DroppedNone(frames[..i], ids + [frames[i].responderId]);
    }
  }

  // ----- what grouping returns -----

  /** `fs` is what `id` sent, in order: the frames at its positions `at`. */
  predicate SentAt(frames: seq<CatchupFrame>, id: ResponderId, fs: seq<CatchupFrame>, at: seq<nat>) {
    && Increasing(at, 0) && |at| == |fs|
    && (forall i :: 0 <= i < |at| ==> at[i] < |frames| && fs[i] == frames[at[i]])
    && (forall p :: 0 <= p < |frames| ==> (frames[p].responderId == id <==> p in at))
  }

  ghost predicate AllSent(frames: seq<CatchupFrame>, id: ResponderId, fs: seq<CatchupFrame>) {
    exists at :: SentAt(frames, id, fs, at)
  }

  /** Exactly one of the frames is a status frame, and carries `status`. */
  predicate OneStatus(fs: seq<CatchupFrame>, status: CatchupStatus) {
    exists j :: 0 <= j < |fs| && fs[j].body == Status(status)
      && forall i :: 0 <= i < |fs| && i != j ==> !fs[i].body.Status?
  }

  predicate FirstAt(frames: seq<CatchupFrame>, id: ResponderId, p: nat) {
    p < |frames| && frames[p].responderId == id && forall q :: 0 <= q < p ==> frames[q].responderId != id
  }

  function Senders(frames: seq<CatchupFrame>): set<ResponderId> {
    set p | 0 <= p < |frames| :: frames[p].responderId
  }

  /** Fewer than `cap` responders were heard before the first frame of `id`. */
  ghost predicate WithinCap(frames: seq<CatchupFrame>, cap: nat, id: ResponderId) {
    exists p: nat :: FirstAt(frames, id, p) && |Senders(frames[..p])| < cap
  }

  /** The responders that are within the cap and sent exactly one status frame. */
  ghost predicate Answers(frames: seq<CatchupFrame>, cap: nat, id: ResponderId) {
    WithinCap(frames, cap, id) && exists fs, status :: AllSent(frames, id, fs) && OneStatus(fs, status)
  }

  predicate HeardBefore(frames: seq<CatchupFrame>, a: ResponderId, b: ResponderId) {
    exists p: nat, q: nat :: p < q < |frames| && FirstAt(frames, a, p) && FirstAt(frames, b, q)
  }

  predicate FirstOrder(frames: seq<CatchupFrame>, ids: seq<ResponderId>) {
    forall i, j :: 0 <= i < j < |ids| ==>
      HeardBefore(frames, ids[i], ids[j])
  }

  /** The groups are those of `ids`: each with its one status and everything its
      responder sent, one for each that answers, by first appearance. */
  ghost predicate GroupsOf(frames: seq<CatchupFrame>, cap: nat, groups: seq<(CatchupStatus, seq<CatchupFrame>)>,
                           ids: seq<ResponderId>)
  {
    && |ids| == |groups| && FirstOrder(frames, ids)
    && (forall id :: id in ids <==> Answers(frames, cap, id))
    && (forall i :: 0 <= i < |ids| ==>
          AllSent(frames, ids[i], groups[i].1) && OneStatus(groups[i].1, groups[i].0))
  }

  lemma {:induction false} FramesOfSent(frames: seq<CatchupFrame>, id: ResponderId) returns (at: seq<nat>)
    ensures SentAt(frames, id, FramesOf(frames, id), at)
  {
    if frames == [] {
      at := [];
    } else {
      var n := |frames| - 1;
      at := FramesOfSent(frames[..n], id);
      FramesOfStep(frames, id);
      hide FramesOf;
      SentStep(frames, id, FramesOf(frames[..n], id), at);
      if frames[n].responderId == id {
        at := at + [n];
      }
    }
  }

  lemma FramesOfStep(frames: seq<CatchupFrame>, id: ResponderId)
    requires frames != []
    ensures var n := |frames| - 1;
            FramesOf(frames, id) == if frames[n].responderId == id then FramesOf(frames[..n], id) + [frames[n]]
                                    else FramesOf(frames[..n], id)
  {
  }

  lemma SentStep(frames: seq<CatchupFrame>, id: ResponderId, fs: seq<CatchupFrame>, at: seq<nat>)
    requires frames != [] && SentAt(frames[..|frames| - 1], id, fs, at)
    ensures var n := |frames| - 1;
            if frames[n].responderId == id then SentAt(frames, id, fs + [frames[n]], at + [n])
            else SentAt(frames, id, fs, at)
  {
    var n := |frames| - 1;
    assert forall p :: 0 <= p < n ==> frames[..n][p] == frames[p];
    assert n !in at;
  }

  /** The frames a responder sent are one list. */
  lemma {:induction false} SentOnce(frames: seq<CatchupFrame>, id: ResponderId, fs: seq<CatchupFrame>, at: seq<nat>,
                                    gs: seq<CatchupFrame>, at': seq<nat>)
    requires SentAt(frames, id, fs, at) && SentAt(frames, id, gs, at')
    ensures fs == gs
  {
    forall p: nat ensures p in at <==> p in at' {
      if p in at || p in at' {
        assert p < |frames|;
      }
    }
    SameIncreasing(at, at');
  }

  lemma {:induction false} SameIncreasing(a: seq<nat>, b: seq<nat>)
    requires Increasing(a, 0) && Increasing(b, 0) && forall p: nat :: p in a <==> p in b
    ensures a == b
  {
    assert b != [] ==> b[0] in b;
    if a != [] {
      assert a[0] in a;
      assert a[0] == b[0];
      forall p: nat ensures p in a[1..] <==> p in b[1..] {
        assert p in a <==> p == a[0] || p in a[1..];
        assert p in b <==> p == b[0] || p in b[1..];
      }
      SameIncreasing(a[1..], b[1..]);
    }
  }

  lemma {:induction false} NoStatuses(fs: seq<CatchupFrame>)
    ensures Statuses(fs) == [] <==> forall i :: 0 <= i < |fs| ==> !fs[i].body.Status?
  {
    if fs != [] {
      NoStatuses(fs[..|fs| - 1]);
    }
  }

  lemma OneStatusStep(fs: seq<CatchupFrame>, status: CatchupStatus)
    requires fs != []
    ensures var n := |fs| - 1;
            OneStatus(fs, status)
            <==> if fs[n].body.Status? then
                   fs[n].body.status == status && forall i :: 0 <= i < n ==> !fs[..n][i].body.Status?
                 else OneStatus(fs[..n], status)
  {
    var n := |fs| - 1;
    if OneStatus(fs, status) {
      var j :| 0 <= j < |fs| && fs[j].body == Status(status)
        && forall i :: 0 <= i < |fs| && i != j ==> !fs[i].body.Status?;
      if j < n {
        assert fs[..n][j].body == Status(status);
      }
    }
    if !fs[n].body.Status? && OneStatus(fs[..n], status) {
      var j :| 0 <= j < n && fs[..n][j].body == Status(status)
        && forall i :: 0 <= i < n && i != j ==> !fs[..n][i].body.Status?;
      assert fs[j].body == Status(status) && forall i :: 0 <= i < n ==> fs[..n][i] == fs[i];
    }
    if fs[n].body == Status(status) && forall i :: 0 <= i < n ==> !fs[..n][i].body.Status? {
      assert forall i :: 0 <= i < n ==> fs[..n][i] == fs[i];
    }
  }

  lemma {:induction false} StatusesOne(fs: seq<CatchupFrame>, status: CatchupStatus)
    ensures Statuses(fs) == [status] <==> OneStatus(fs, status)
  {
    if fs != [] {
      var n := |fs| - 1;
      StatusesOne(fs[..n], status);
      NoStatuses(fs[..n]);
      OneStatusStep(fs, status);
      hide OneStatus;
      var init, b := Statuses(fs[..n]), fs[n].body;
      if b.Status? {
        assert Statuses(fs) == init + [b.status];
        assert Statuses(fs)[|init|] == b.status;
      } else {
        assert Statuses(fs) == init + [];
      }
    }
  }

  lemma FirstAtStep(frames: seq<CatchupFrame>, x: ResponderId, p: nat)
    requires frames != []
    ensures var n := |frames| - 1;
            FirstAt(frames, x, p)
            <==> if p < n then FirstAt(frames[..n], x, p)
                 else p == n && frames[n].responderId == x && x !in Senders(frames[..n])
  {
    var n := |frames| - 1;
    assert forall q :: 0 <= q < n ==> frames[..n][q] == frames[q];
  }

  lemma WithinCapStep(frames: seq<CatchupFrame>, cap: nat, x: ResponderId)
    requires frames != []
    ensures var before, id := frames[..|frames| - 1], frames[|frames| - 1].responderId;
            WithinCap(frames, cap, x)
            <==> WithinCap(before, cap, x) || (x == id && id !in Senders(before) && |Senders(before)| < cap)
  {
    var n := |frames| - 1;
    hide Senders;
    if p: nat :| FirstAt(frames, x, p) && |Senders(frames[..p])| < cap {
      FirstAtStep(frames, x, p);
      if p < n {
        assert frames[..n][..p] == frames[..p];
      }
    }
    if p: nat :| FirstAt(frames[..n], x, p) && |Senders(frames[..n][..p])| < cap {
      FirstInside(frames[..n], x, p);
      FirstAtStep(frames, x, p);
      assert frames[..n][..p] == frames[..p];
    }
    FirstAtStep(frames, x, n);
  }

  lemma FirstInside(frames: seq<CatchupFrame>, x: ResponderId, p: nat)
    requires FirstAt(frames, x, p)
    ensures p < |frames| && x in Senders(frames)
  {
  }

  lemma SendersStep(frames: seq<CatchupFrame>)
    requires frames != []
    ensures Senders(frames) == Senders(frames[..|frames| - 1]) + {frames[|frames| - 1].responderId}
  {
    var n := |frames| - 1;
    forall x ensures x in Senders(frames) <==> x in Senders(frames[..n]) + {frames[n].responderId} {
      if x in Senders(frames) {
        var p :| 0 <= p < |frames| && frames[p].responderId == x;
        assert p < n ==> frames[..n][p] == frames[p];
      }
      if x in Senders(frames[..n]) {
        var p :| 0 <= p < n && frames[..n][p].responderId == x;
        assert frames[p].responderId == x;
      }
    }
  }

  lemma FirstOrderStep(frames: seq<CatchupFrame>, cap: nat, ids: seq<ResponderId>)
    requires frames != [] && FirstOrder(frames[..|frames| - 1], ids)
    requires forall id :: id in ids ==> WithinCap(frames[..|frames| - 1], cap, id)
    ensures FirstOrder(frames, ids)
    ensures var n := |frames| - 1;
            frames[n].responderId !in Senders(frames[..n]) ==> FirstOrder(frames, ids + [frames[n].responderId])
  {
    var n := |frames| - 1;
    var id := frames[n].responderId;
    hide FirstAt, Senders;
    forall i, j | 0 <= i < j < |ids|
      ensures HeardBefore(frames, ids[i], ids[j])
    {
      assert HeardBefore(frames[..n], ids[i], ids[j]);
      var p: nat, q: nat :| p < q < n && FirstAt(frames[..n], ids[i], p) && FirstAt(frames[..n], ids[j], q);
      FirstAtStep(frames, ids[i], p);
      FirstAtStep(frames, ids[j], q);
    }
    if id !in Senders(frames[..n]) {
      var more := ids + [id];
      FirstAtStep(frames, id, n);
      forall i, j | 0 <= i < j < |more|
        ensures HeardBefore(frames, more[i], more[j])
      {
        if j < |ids| {
          assert more[i] == ids[i] && more[j] == ids[j];
        } else {
          assert ids[i] in ids;
          var p: nat :| FirstAt(frames[..n], ids[i], p) && |Senders(frames[..n][..p])| < cap;
          FirstInside(frames[..n], ids[i], p);
          FirstAtStep(frames, ids[i], p);
        }
      }
    }
  }

  /** Exactly the responders within the cap are admitted, by first appearance. */
  lemma {:induction false} AdmittedExactly(frames: seq<CatchupFrame>, cap: nat)
    ensures var ids := AdmittedIds(frames, cap);
            && (forall id :: id in ids <==> WithinCap(frames, cap, id))
            && FirstOrder(frames, ids) && |ids| == Least(cap, |Senders(frames)|)
  {
    hide WithinCap, FirstOrder, Senders;
    if frames == [] {
      NothingSent(frames, cap);
    } else {
      var n := |frames| - 1;
      var before, id := frames[..n], frames[n].responderId;
      var ids := AdmittedIds(before, cap);
      AdmittedExactly(before, cap);
      forall x ensures WithinCap(frames, cap, x)
        <==> WithinCap(before, cap, x) || (x == id && id !in Senders(before) && |Senders(before)| < cap)
      {
        WithinCapStep(frames, cap, x);
      }
      SendersStep(frames);
      NewWithinCap(before, cap, id);
      FirstOrderStep(frames, cap, ids);
    }
  }

  lemma NothingSent(frames: seq<CatchupFrame>, cap: nat)
    requires frames == []
    ensures Senders(frames) == {} && FirstOrder(frames, []) && forall id :: !WithinCap(frames, cap, id)
  {
  }

  /** While there is room, the admitted responders are all that were heard. */
  lemma NewWithinCap(frames: seq<CatchupFrame>, cap: nat, id: ResponderId)
    requires forall x :: x in AdmittedIds(frames, cap) <==> WithinCap(frames, cap, x)
    requires |AdmittedIds(frames, cap)| == Least(cap, |Senders(frames)|)
    ensures id !in AdmittedIds(frames, cap) && |AdmittedIds(frames, cap)| < cap
       <==> id !in Senders(frames) && |Senders(frames)| < cap
  {
    var ids := AdmittedIds(frames, cap);
    AdmittedIdsDistinct(frames, cap);
    if id in ids {
      var p: nat :| FirstAt(frames, id, p) && |Senders(frames[..p])| < cap;
      FirstInside(frames, id, p);
    }
    if |ids| < cap && id in Senders(frames) {
      var p :| 0 <= p < |frames| && frames[p].responderId == id;
      assert frames[p] in frames;
    }
  }

  // ----- usable groups -----

  /** The positions `at` are those of the groups with one status frame, and `kept`
      are those groups with that status. */
  ghost predicate Keeps(groups: seq<Group>, kept: seq<(CatchupStatus, seq<CatchupFrame>)>, at: seq<nat>) {
    && Increasing(at, 0) && |at| == |kept|
    && (forall i :: 0 <= i < |at| ==>
          at[i] < |groups| && kept[i].1 == groups[at[i]].1 && OneStatus(kept[i].1, kept[i].0))
    && (forall p :: 0 <= p < |groups| ==> (p in at <==> exists status :: OneStatus(groups[p].1, status)))
  }

  lemma KeepsStep(groups: seq<Group>, g: Group, kept: seq<(CatchupStatus, seq<CatchupFrame>)>, at: seq<nat>)
    requires Keeps(groups, kept, at)
    ensures (forall status :: !OneStatus(g.1, status)) ==> Keeps(groups + [g], kept, at)
    ensures forall status :: OneStatus(g.1, status) ==>
              Keeps(groups + [g], kept + [(status, g.1)], at + [|groups|])
  {
    hide OneStatus;
    var n := |groups|;
    assert n !in at;
    assert forall p :: 0 <= p < n ==> (groups + [g])[p] == groups[p];
    forall status | OneStatus(g.1, status) ensures Keeps(groups + [g], kept + [(status, g.1)], at + [n]) {
      assert forall p :: 0 <= p < n ==> (p in at + [n] <==> p in at);
    }
  }

  lemma {:induction false} UsableSpec(groups: seq<Group>) returns (at: seq<nat>)
    ensures Keeps(groups, Usable(groups), at)
  {
    if groups == [] {
      at := [];
    } else {
      hide *;
      var n := |groups| - 1;
      at := UsableSpec(groups[..n]);
      assert groups == groups[..n] + [groups[n]];
      UsableStep(groups);
      KeepsStep(groups[..n], groups[n], Usable(groups[..n]), at);
      OneStatusOf(groups[n].1);
      if |Statuses(groups[n].1)| == 1 {
        at := at + [n];
      }
    }
  }

  lemma OneStatusOf(fs: seq<CatchupFrame>)
    ensures |Statuses(fs)| == 1 ==> OneStatus(fs, Statuses(fs)[0])
    ensures |Statuses(fs)| != 1 ==> forall status :: !OneStatus(fs, status)
  {
    hide OneStatus, Statuses;
    forall status ensures Statuses(fs) == [status] <==> OneStatus(fs, status) {
      StatusesOne(fs, status);
    }
    if |Statuses(fs)| == 1 {
      assert Statuses(fs) == [Statuses(fs)[0]];
    }
  }

  lemma UsableStep(groups: seq<Group>)
    requires groups != []
    ensures var n := |groups| - 1;
            var statuses := Statuses(groups[n].1);
            && (|statuses| == 1 ==> Usable(groups) == Usable(groups[..n]) + [(statuses[0], groups[n].1)])
            && (|statuses| != 1 ==> Usable(groups) == Usable(groups[..n]))
  {
    hide Statuses;
  }

  /** Every group holds what its responder sent. */
  lemma GroupedSent(frames: seq<CatchupFrame>, cap: nat)
    ensures var groups, ids := Grouped(frames, cap), AdmittedIds(frames, cap);
            |groups| == |ids| && forall i :: 0 <= i < |ids| ==> AllSent(frames, ids[i], groups[i].1)
  {
    var ids := AdmittedIds(frames, cap);
    hide SentAt, FramesOf, AdmittedIds;
    forall i | 0 <= i < |ids| ensures AllSent(frames, ids[i], Grouped(frames, cap)[i].1) {
      var at := FramesOfSent(frames, ids[i]);
    }
  }

  lemma PickedInOrder(frames: seq<CatchupFrame>, ids: seq<ResponderId>, at: seq<nat>, picked: seq<ResponderId>)
    requires FirstOrder(frames, ids) && Increasing(at, 0) && |picked| == |at|
    requires forall i :: 0 <= i < |at| ==> at[i] < |ids| && picked[i] == ids[at[i]]
    ensures FirstOrder(frames, picked)
  {
    hide FirstAt;
    forall i, j | 0 <= i < j < |picked|
      ensures HeardBefore(frames, picked[i], picked[j])
    {
      assert at[i] < at[j];
      assert HeardBefore(frames, ids[at[i]], ids[at[j]]);
    }
  }

  lemma GroupAnswers(frames: seq<CatchupFrame>, cap: nat, id: ResponderId, fs: seq<CatchupFrame>)
    requires AllSent(frames, id, fs)
    ensures Answers(frames, cap, id) <==> WithinCap(frames, cap, id) && exists status :: OneStatus(fs, status)
  {
    hide SentAt, OneStatus, WithinCap;
    if gs, status :| AllSent(frames, id, gs) && OneStatus(gs, status) {
      var at :| SentAt(frames, id, fs, at);
      var at' :| SentAt(frames, id, gs, at');
      SentOnce(frames, id, fs, at, gs, at');
    }
  }

  /** `group_frames` returns, by first appearance, exactly the responders within the
      cap that sent exactly one status frame, each with that status and everything
      it sent. */
  lemma UsableGroups(frames: seq<CatchupFrame>, cap: nat) returns (picked: seq<ResponderId>)
    ensures GroupsOf(frames, cap, Usable(Grouped(frames, cap)), picked)
  {
    var groups, ids := Grouped(frames, cap), AdmittedIds(frames, cap);
    var usable := Usable(groups);
    GroupedSent(frames, cap);
    AdmittedExactly(frames, cap);
    var at := UsableSpec(groups);
    hide Usable, Grouped, AdmittedIds, AllSent, OneStatus, WithinCap, FirstOrder, Answers;
    picked := seq(|at|, i requires 0 <= i < |at| => ids[at[i]]);
    PickedInOrder(frames, ids, at, picked);
    forall id ensures id in picked <==> Answers(frames, cap, id) {
      if id in picked {
        var i :| 0 <= i < |at| && picked[i] == id;
        GroupAnswers(frames, cap, id, groups[at[i]].1);
        assert at[i] in at;
      }
      if Answers(frames, cap, id) {
        AnswersWithin(frames, cap, id);
        var p :| 0 <= p < |ids| && ids[p] == id;
        GroupAnswers(frames, cap, id, groups[p].1);
        assert p in at;
        var i :| 0 <= i < |at| && at[i] == p;
        assert picked[i] == id;
      }
    }
  }

  lemma AnswersWithin(frames: seq<CatchupFrame>, cap: nat, id: ResponderId)
    requires Answers(frames, cap, id)
    ensures WithinCap(frames, cap, id)
  {
  }

  /** `group_frames`: the usable groups of the first `cap` responders, and how
      many frames of other responders were dropped. */
  method GroupFrames(frames: seq<CatchupFrame>, cap: nat)
    returns (groups: seq<(CatchupStatus, seq<CatchupFrame>)>, dropped: nat)
    ensures exists ids :: GroupsOf(frames, cap, groups, ids)
    ensures dropped == |set p | 0 <= p < |frames| && !WithinCap(frames, cap, frames[p].responderId)|
    ensures groups == Usable(Grouped(frames, cap))
    ensures dropped == DroppedCount(frames, AdmittedIds(frames, cap))
  {
    var grouped: seq<Group> := [];
    dropped := 0;
    for i := 0 to |frames|
      invariant grouped == Grouped(frames[..i], cap)
      invariant dropped == DroppedCount(frames[..i], AdmittedIds(frames[..i], cap))
    {
      GroupStep(frames, i, cap);
      DroppedStep(frames, i, cap);
      var f := frames[i];
      ghost var ids := AdmittedIds(frames[..i], cap);
      assert forall k :: 0 <= k < |ids| ==> grouped[k].0 == ids[k];
      hide Grouped, AdmittedIds, DroppedCount;
      var at := Position(grouped, f.responderId);
      if at.Some? {
        assert ids[at.value] == f.responderId;
        grouped := Appended(grouped, at.value, f);
      } else {
        forall k | 0 <= k < |ids| ensures ids[k] != f.responderId {
          assert grouped[k] in grouped;
        }
        if |grouped| < cap {
          grouped := grouped + [(f.responderId, [f])];
        } else {
          dropped := dropped + 1;
        }
      }
    }
    assert frames[..|frames|] == frames;
    groups := KeepUsable(grouped);
    hide *;
    GroupingMeans(frames, cap);
  }

  /** What the usable groups and the count of dropped frames are. */
  lemma GroupingMeans(frames: seq<CatchupFrame>, cap: nat)
    ensures exists ids :: GroupsOf(frames, cap, Usable(Grouped(frames, cap)), ids)
    ensures DroppedCount(frames, AdmittedIds(frames, cap))
         == |set p | 0 <= p < |frames| && !WithinCap(frames, cap, frames[p].responderId)|
  {
    hide *;
    ghost var ids := UsableGroups(frames, cap);
    AdmittedExactly(frames, cap);
    DroppedPositions(frames, AdmittedIds(frames, cap));
    assert (set p | 0 <= p < |frames| && frames[p].responderId !in AdmittedIds(frames, cap))
        == set p | 0 <= p < |frames| && !WithinCap(frames, cap, frames[p].responderId);
  }

  /** The filter pass: groups with exactly one status frame. */
  method KeepUsable(grouped: seq<Group>) returns (groups: seq<(CatchupStatus, seq<CatchupFrame>)>)
    ensures groups == Usable(grouped)
  {
    groups := [];
    for i := 0 to |grouped|
      invariant groups == Usable(grouped[..i])
    {
      assert grouped[..i + 1][..i] == grouped[..i];
      UsableStep(grouped[..i + 1]);
      hide Usable;
      var status, count := LastStatus(grouped[i].1);
      if count == 1 {
        groups := groups + [(status.value, grouped[i].1)];
      }
    }
    assert grouped[..|grouped|] == grouped;
  }

  method LastStatus(group: seq<CatchupFrame>) returns (status: Option<CatchupStatus>, count: nat)
    ensures count == |Statuses(group)|
    ensures count > 0 ==> status == Some(Statuses(group)[count - 1])
  {
    status, count := None, 0;
    for i := 0 to |group|
      invariant count == |Statuses(group[..i])|
      invariant count > 0 ==> status == Some(Statuses(group[..i])[count - 1])
    {
      assert group[..i + 1][..i] == group[..i];
      if group[i].body.Status? {
        status, count := Some(group[i].body.status), count + 1;
      }
    }
    assert group[..|group|] == group;
  }

  function Total(groups: seq<Group>): nat {
    if groups == [] then 0 else Total(groups[..|groups| - 1]) + |groups[|groups| - 1].1|
  }

  lemma {:induction false} TotalAppended(groups: seq<Group>, at: nat, f: CatchupFrame)
    requires at < |groups|
    ensures Total(Appended(groups, at, f)) == Total(groups) + 1
  {
    var n := |groups| - 1;
    var after := Appended(groups, at, f);
    if at == n {
      assert after[..n] == groups[..n];
    } else {
      TotalAppended(groups[..n], at, f);
      assert after[..n] == Appended(groups[..n], at, f);
    }
  }

  lemma TotalOneMore(groups: seq<Group>, g: Group)
    ensures Total(groups + [g]) == Total(groups) + |g.1|
  {
    assert (groups + [g])[..|groups|] == groups;
  }

  lemma GroupsOfNothing(frames: seq<CatchupFrame>, cap: nat)
    ensures Total(Grouped(frames[..0], cap)) == 0 && DroppedCount(frames[..0], AdmittedIds(frames[..0], cap)) == 0
  {
  }

  /** Grouping loses nothing: every frame is in one group or counted as dropped. */
  lemma {:induction false} GroupsPartitionFrames(frames: seq<CatchupFrame>, cap: nat, i: nat)
    requires i <= |frames|
    ensures Total(Grouped(frames[..i], cap)) + DroppedCount(frames[..i], AdmittedIds(frames[..i], cap)) == i
  {
    if i == 0 {
      GroupsOfNothing(frames, cap);
    } else {
      hide *;
      GroupsPartitionFrames(frames, cap, i - 1);
      FrameCounted(frames, i - 1, cap);
    }
  }

  lemma FrameCounted(frames: seq<CatchupFrame>, i: nat, cap: nat)
    requires i < |frames|
    ensures Total(Grouped(frames[..i + 1], cap)) + DroppedCount(frames[..i + 1], AdmittedIds(frames[..i + 1], cap))
         == Total(Grouped(frames[..i], cap)) + DroppedCount(frames[..i], AdmittedIds(frames[..i], cap)) + 1
  {
    hide *;
    TotalStep(frames, i, cap);
    DroppedStep(frames, i, cap);
  }

  lemma TotalStep(frames: seq<CatchupFrame>, i: nat, cap: nat)
    requires i < |frames|
    ensures var ids := AdmittedIds(frames[..i], cap);
            Total(Grouped(frames[..i + 1], cap))
            == Total(Grouped(frames[..i], cap)) + if frames[i].responderId !in ids && |ids| >= cap then 0 else 1
  {
    hide *;
    GroupStep(frames, i, cap);
    var ids, f := AdmittedIds(frames[..i], cap), frames[i];
    var before := Grouped(frames[..i], cap);
    if f.responderId in ids {
      var k :| 0 <= k < |ids| && ids[k] == f.responderId;
      TotalAppended(before, k, f);
    } else if |ids| < cap {
      TotalOneMore(before, (f.responderId, [f]));
    }
  }
}
