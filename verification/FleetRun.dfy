/** The intro dataset across a whole fleet: what every interleaving of deposits,
    stale merges and sweeps keeps, and when the fleet converges to empty
    (`src-tauri/src/community_device_intro_ingest.rs`,
    `src-tauri/src/community_device_intro_crdt.rs`). */
module FleetRun {
  import opened Prelude
  import opened FleetIntro

  // ----- transition system -----

  /** One successful relay: which device, of which key, carrying which event. */
  datatype Ack = Ack(device: DeviceId, key: string, event: seq<byte>)

  /** All replicas, every snapshot ever published (never withdrawn, so arbitrarily
      stale ones can still arrive) and the history of successful relays. */
  datatype Fleet = Fleet(docs: map<DeviceId, Doc>, flight: set<Doc>, relays: set<Ack>)

  datatype Step =
    | Deposit(at: DeviceId, key: string, community: Bytes16, minted: Minted)
    | Publish(at: DeviceId)
    | Receive(at: DeviceId, snapshot: Doc)
    | SweepAt(at: DeviceId, relay: Relay, enrolled: set<DeviceId>, nowMs: u64)

  ghost predicate Enabled(f: Fleet, s: Step) {
    s.at in f.docs && (s.Receive? ==> s.snapshot in f.flight)
  }

  /** The relay calls of one sweep that succeed. */
  function SweepAcks(doc: Doc, self: DeviceId, relay: Relay): set<Ack> {
    set k | k in NewlyRelayed(doc, self, relay) :: Ack(self, k, doc[k].signedEvent)
  }

  ghost function Apply(f: Fleet, s: Step): Fleet
    requires Enabled(f, s)
  {
    var doc := f.docs[s.at];
    match s
    case Deposit(at, key, community, minted) =>
      if key in doc then f else f.(docs := f.docs[at := doc[key := Deposited(community, minted)]])
    case Publish(at) => f.(flight := f.flight + {doc})
    case Receive(at, snapshot) => f.(docs := f.docs[at := Merge(doc, snapshot)])
    case SweepAt(at, relay, enrolled, nowMs) =>
      f.(docs := f.docs[at := Sweep(doc, at, relay, enrolled, nowMs)],
         relays := f.relays + SweepAcks(doc, at, relay))
  }

  /** `steps` lead from `f` to `g`. */
  ghost predicate Runs(f: Fleet, steps: seq<Step>, g: Fleet)
    decreases steps
  {
    if steps == [] then f == g
    else Enabled(f, steps[0]) && Runs(Apply(f, steps[0]), steps[1..], g)
  }

  predicate Initial(f: Fleet) {
    (forall d :: d in f.docs ==> f.docs[d] == map[]) && f.flight == {} && f.relays == {}
  }

  // ----- coverage GC is safe -----

  predicate RelayedBefore(relays: set<Ack>, d: DeviceId, k: string) {
    exists a :: a in relays && a.device == d && a.key == k
  }

  /** Every ack recorded in the document stands for a relay that happened. */
  predicate AcksHonest(doc: Doc, relays: set<Ack>) {
    forall k, d :: k in doc && d in doc[k].relayedBy ==> RelayedBefore(relays, d, k)
  }

  predicate FleetHonest(f: Fleet) {
    && (forall d :: d in f.docs ==> AcksHonest(f.docs[d], f.relays))
    && (forall doc :: doc in f.flight ==> AcksHonest(doc, f.relays))
  }

  lemma HonestGrows(doc: Doc, before: set<Ack>, after: set<Ack>)
    requires AcksHonest(doc, before) && before <= after
    ensures AcksHonest(doc, after)
  {
    forall k, d | k in doc && d in doc[k].relayedBy ensures RelayedBefore(after, d, k) {
      assert RelayedBefore(before, d, k);
    }
  }

  lemma MergeHonest(local: Doc, remote: Doc, relays: set<Ack>)
    requires AcksHonest(local, relays) && AcksHonest(remote, relays)
    ensures AcksHonest(Merge(local, remote), relays)
  {
    var m := Merge(local, remote);
    forall k, d | k in m && d in m[k].relayedBy ensures RelayedBefore(relays, d, k) {
      assert (k in local && d in local[k].relayedBy) || (k in remote && d in remote[k].relayedBy);
    }
  }

  lemma SweepHonest(doc: Doc, self: DeviceId, relay: Relay, enrolled: set<DeviceId>, nowMs: u64, relays: set<Ack>)
    requires AcksHonest(doc, relays)
    ensures AcksHonest(Sweep(doc, self, relay, enrolled, nowMs), relays + SweepAcks(doc, self, relay))
  {
    var swept, after := Sweep(doc, self, relay, enrolled, nowMs), relays + SweepAcks(doc, self, relay);
    HonestGrows(doc, relays, after);
    forall k, d | k in swept && d in swept[k].relayedBy ensures RelayedBefore(after, d, k) {
      if d !in doc[k].relayedBy {
        assert Ack(self, k, doc[k].signedEvent) in after;
      }
    }
  }

  lemma StepHonest(f: Fleet, s: Step)
    requires FleetHonest(f) && Enabled(f, s)
    ensures FleetHonest(Apply(f, s))
    ensures f.relays <= Apply(f, s).relays
  {
    var g, doc := Apply(f, s), f.docs[s.at];
    match s {
      case Deposit(at, key, community, minted) =>
      case Publish(at) =>
      case Receive(at, snapshot) =>
        MergeHonest(doc, snapshot, f.relays);
      case SweepAt(at, relay, enrolled, nowMs) =>
        SweepHonest(doc, at, relay, enrolled, nowMs, f.relays);
        forall d | d in g.docs ensures AcksHonest(g.docs[d], g.relays) {
          if d != at { HonestGrows(f.docs[d], f.relays, g.relays); }
        }
        forall x | x in g.flight ensures AcksHonest(x, g.relays) {
          HonestGrows(x, f.relays, g.relays);
        }
    }
  }

  lemma {:induction false} RunHonest(f: Fleet, steps: seq<Step>, g: Fleet)
    requires FleetHonest(f) && Runs(f, steps, g)
    ensures FleetHonest(g)
    decreases steps
  {
    if steps != [] {
      StepHonest(f, steps[0]);
      RunHonest(Apply(f, steps[0]), steps[1..], g);
    }
  }

  /** After any run of deposits, publications, merges of stale snapshots and
      sweeps, a sweep that drops an unexpired entry drops one that every enrolled
      device had relayed before that sweep began; and it keeps every unexpired
      entry whose coverage it would itself complete. */
  lemma CoverageGcSafe(start: Fleet, steps: seq<Step>, f: Fleet, s: Step, k: string)
    requires Initial(start) && Runs(start, steps, f) && Enabled(f, s) && s.SweepAt?
    requires k in f.docs[s.at] && !Expired(s.nowMs, f.docs[s.at][k])
    ensures k !in Apply(f, s).docs[s.at] ==>
              s.enrolled != {} && forall d :: d in s.enrolled ==> RelayedBefore(f.relays, d, k)
    ensures k in Apply(f, s).docs[s.at] <==> !Covered(s.enrolled, f.docs[s.at][k])
  {
    assert FleetHonest(start);
    RunHonest(start, steps, f);
    assert AcksHonest(f.docs[s.at], f.relays);
  }

  // ----- entries are what was deposited -----

  /** Step `s` deposited the entry: its event, community and clock. */
  predicate DepositOf(s: Step, k: string, e: IntroEntry) {
    && s.Deposit? && s.key == k
    && e.signedEvent == s.minted.signedEvent && e.communityId == s.community && e.depositedAt == s.minted.at
  }

  ghost predicate DocDeposited(doc: Doc, steps: seq<Step>) {
    forall k :: k in doc ==> exists s :: s in steps && DepositOf(s, k, doc[k])
  }

  ghost predicate FleetDeposited(f: Fleet, steps: seq<Step>) {
    && (forall d :: d in f.docs ==> DocDeposited(f.docs[d], steps))
    && (forall doc :: doc in f.flight ==> DocDeposited(doc, steps))
  }

  lemma DepositedGrows(doc: Doc, steps: seq<Step>, s: Step)
    requires DocDeposited(doc, steps)
    ensures DocDeposited(doc, steps + [s])
  {
    forall k | k in doc ensures exists x :: x in steps + [s] && DepositOf(x, k, doc[k]) {
      var x :| x in steps && DepositOf(x, k, doc[k]);
      assert x in steps + [s];
    }
  }

  /** An entry of `m` with the deposit fields of one of `doc`. */
  lemma SameFields(doc: Doc, m: Doc, k: string, steps: seq<Step>)
    requires DocDeposited(doc, steps) && k in doc && k in m
    requires m[k] == doc[k].(relayedBy := m[k].relayedBy)
    ensures exists s :: s in steps && DepositOf(s, k, m[k])
  {
    var s :| s in steps && DepositOf(s, k, doc[k]);
    assert DepositOf(s, k, m[k]);
  }

  lemma MergeDeposited(local: Doc, remote: Doc, steps: seq<Step>)
    requires DocDeposited(local, steps) && DocDeposited(remote, steps)
    ensures DocDeposited(Merge(local, remote), steps)
  {
    var m := Merge(local, remote);
    forall k | k in m ensures exists s :: s in steps && DepositOf(s, k, m[k]) {
      SameFields(if k in local then local else remote, m, k, steps);
    }
  }

  lemma SweepDeposited(doc: Doc, self: DeviceId, relay: Relay, enrolled: set<DeviceId>, nowMs: u64, steps: seq<Step>)
    requires DocDeposited(doc, steps)
    ensures DocDeposited(Sweep(doc, self, relay, enrolled, nowMs), steps)
  {
    var swept := Sweep(doc, self, relay, enrolled, nowMs);
    forall k | k in swept ensures exists s :: s in steps && DepositOf(s, k, swept[k]) {
      SameFields(doc, swept, k, steps);
    }
  }

  lemma DepositDeposited(doc: Doc, s: Step, steps: seq<Step>)
    requires DocDeposited(doc, steps) && s.Deposit?
    ensures DocDeposited(doc[s.key := Deposited(s.community, s.minted)], steps + [s])
  {
    DepositedGrows(doc, steps, s);
    var after := doc[s.key := Deposited(s.community, s.minted)];
    forall k | k in after ensures exists x :: x in steps + [s] && DepositOf(x, k, after[k]) {
      if k == s.key {
        assert s in steps + [s] && DepositOf(s, k, after[k]);
      }
    }
  }

  lemma StepDeposited(f: Fleet, s: Step, past: seq<Step>)
    requires FleetDeposited(f, past) && Enabled(f, s)
    ensures FleetDeposited(Apply(f, s), past + [s])
  {
    var g, doc := Apply(f, s), f.docs[s.at];
    hide DocDeposited, Merge, Sweep, Deposited;
    forall x | x in f.docs.Values + f.flight ensures DocDeposited(x, past + [s]) {
      DepositedGrows(x, past, s);
    }
    match s {
      case Deposit(at, key, community, minted) =>
        DepositDeposited(doc, s, past);
      case Publish(at) =>
      case Receive(at, snapshot) =>
        MergeDeposited(doc, snapshot, past + [s]);
      case SweepAt(at, relay, enrolled, nowMs) =>
        SweepDeposited(doc, at, relay, enrolled, nowMs, past + [s]);
    }
    forall d | d in g.docs ensures DocDeposited(g.docs[d], past + [s]) {
      if d != s.at {
        assert f.docs[d] in f.docs.Values;
      }
    }
  }

  lemma {:induction false} RunDeposited(f: Fleet, past: seq<Step>, steps: seq<Step>, g: Fleet)
    requires FleetDeposited(f, past) && Runs(f, steps, g)
    ensures FleetDeposited(g, past + steps)
    decreases steps
  {
    if steps == [] {
      assert past + steps == past;
    } else {
      StepDeposited(f, steps[0], past);
      assert past + [steps[0]] + steps[1..] == past + steps;
      hide FleetDeposited;
      RunDeposited(Apply(f, steps[0]), past + [steps[0]], steps[1..], g);
    }
  }

  /** However deposits, merges and sweeps interleave, a replica's entry carries the
      event, the community and the clock of one deposit under its key. */
  lemma EntriesAreDeposits(start: Fleet, steps: seq<Step>, f: Fleet, at: DeviceId, k: string)
    requires Initial(start) && Runs(start, steps, f) && at in f.docs && k in f.docs[at]
    ensures exists s :: s in steps && DepositOf(s, k, f.docs[at][k])
  {
    RunDeposited(start, [], steps, f);
    assert [] + steps == steps;
    assert DocDeposited(f.docs[at], steps);
  }

  /** So after any run, what a sweep drops had been relayed by every enrolled device
      before that sweep, or was deposited more than thirty days ago. */
  lemma DropsOnlyRelayedOrOld(start: Fleet, steps: seq<Step>, f: Fleet, s: Step, k: string)
    requires Initial(start) && Runs(start, steps, f) && Enabled(f, s) && s.SweepAt?
    requires k in f.docs[s.at] && k !in Apply(f, s).docs[s.at]
    ensures || (s.enrolled != {} && forall d :: d in s.enrolled ==> RelayedBefore(f.relays, d, k))
            || exists x :: x in steps && DepositOf(x, k, f.docs[s.at][k])
                 && x.minted.at.wallMs + 2_592_000_000 < s.nowMs
  {
    EntriesAreDeposits(start, steps, f, s.at, k);
    RunHonest(start, steps, f);
    assert AcksHonest(f.docs[s.at], f.relays);
    var e := f.docs[s.at][k];
    SweepRemoves(f.docs[s.at], s.at, s.relay, s.enrolled, s.nowMs, k);
    hide Runs, Sweep, RelayedBefore;
    var x :| x in steps && DepositOf(x, k, e);
  }

  // ----- which event was relayed -----

  /** The stronger reading: the acking device relayed this very event. */
  predicate EventsHonest(doc: Doc, relays: set<Ack>) {
    forall k, d :: k in doc && d in doc[k].relayedBy ==> Ack(d, k, doc[k].signedEvent) in relays
  }

  /** Deposits under one key carry one event. */
  predicate ConsistentDeposits(steps: seq<Step>, event: string -> seq<byte>) {
    forall i :: 0 <= i < |steps| && steps[i].Deposit? ==> steps[i].minted.signedEvent == event(steps[i].key)
  }

  predicate EventsAre(doc: Doc, relays: set<Ack>, event: string -> seq<byte>) {
    && (forall k :: k in doc ==> doc[k].signedEvent == event(k))
    && (forall k, d :: k in doc && d in doc[k].relayedBy ==> Ack(d, k, event(k)) in relays)
  }

  predicate FleetEventsAre(f: Fleet, event: string -> seq<byte>) {
    && (forall d :: d in f.docs ==> EventsAre(f.docs[d], f.relays, event))
    && (forall doc :: doc in f.flight ==> EventsAre(doc, f.relays, event))
  }

  lemma StepEvents(f: Fleet, s: Step, event: string -> seq<byte>)
    requires FleetEventsAre(f, event) && Enabled(f, s)
    requires s.Deposit? ==> s.minted.signedEvent == event(s.key)
    ensures FleetEventsAre(Apply(f, s), event)
  {
    var doc := f.docs[s.at];
    assert EventsAre(doc, f.relays, event);
    if s.Receive? {
      assert EventsAre(s.snapshot, f.relays, event);
      assert EventsAre(Merge(doc, s.snapshot), f.relays, event);
    }
    if s.SweepAt? {
      var swept := Sweep(doc, s.at, s.relay, s.enrolled, s.nowMs);
      var after := f.relays + SweepAcks(doc, s.at, s.relay);
      forall k, d | k in swept && d in swept[k].relayedBy ensures Ack(d, k, event(k)) in after {
        if d !in doc[k].relayedBy {
          assert Ack(s.at, k, doc[k].signedEvent) in after;
        }
      }
      assert EventsAre(swept, after, event);
    }
  }

  lemma {:induction false} RunEvents(f: Fleet, steps: seq<Step>, g: Fleet, event: string -> seq<byte>)
    requires FleetEventsAre(f, event) && Runs(f, steps, g) && ConsistentDeposits(steps, event)
    ensures FleetEventsAre(g, event)
    decreases steps
  {
    if steps != [] {
      StepEvents(f, steps[0], event);
      assert forall i :: 0 <= i < |steps[1..]| ==> steps[1..][i] == steps[i + 1];
      RunEvents(Apply(f, steps[0]), steps[1..], g, event);
    }
  }

  /** When no two deposits under one key differ, as the documentation says of
      intros, every ack in every reachable document is of the event beside it. */
  lemma ConsistentDepositsKeepEvents(start: Fleet, steps: seq<Step>, f: Fleet, event: string -> seq<byte>, at: DeviceId)
    requires Initial(start) && Runs(start, steps, f) && ConsistentDeposits(steps, event) && at in f.docs
    ensures EventsHonest(f.docs[at], f.relays)
  {
    assert FleetEventsAre(start, event);
    RunEvents(start, steps, f, event);
    assert EventsAre(f.docs[at], f.relays, event);
  }

  /** Which event may be deposited under which key. */
  type Policy = (string, seq<byte>) -> bool

  predicate Obeys(steps: seq<Step>, policy: Policy) {
    forall i :: 0 <= i < |steps| && steps[i].Deposit? ==> policy(steps[i].key, steps[i].minted.signedEvent)
  }

  /** In every run whose deposits obey the policy, every ack in every document is
      of the event beside it. */
  ghost predicate KeepsEvents(policy: Policy) {
    forall start, steps, f, at ::
      Initial(start) && Runs(start, steps, f) && Obeys(steps, policy) && at in f.docs ==>
        EventsHonest(f.docs[at], f.relays)
  }

  /** The policy never allows two events under one key. */
  ghost predicate OneEventPerKey(policy: Policy) {
    forall k, e, e' :: policy(k, e) && policy(k, e') ==> e == e'
  }

  ghost function EventFor(policy: Policy, k: string): seq<byte> {
    if exists e :: policy(k, e) then
      var e :| policy(k, e);
      e
    else []
  }

  /** Acks are sound per event, in every run, exactly when no two deposits under
      one key can differ. */
  lemma EventsKeptIffOneEventPerKey(policy: Policy)
    ensures KeepsEvents(policy) <==> OneEventPerKey(policy)
  {
    if OneEventPerKey(policy) {
      forall start, steps, f, at | Initial(start) && Runs(start, steps, f) && Obeys(steps, policy) && at in f.docs
        ensures EventsHonest(f.docs[at], f.relays)
      {
        ghost var event: string -> seq<byte> := k => EventFor(policy, k);
        ConsistentDepositsKeepEvents(start, steps, f, event, at);
      }
    } else {
      var k, e, e' :| policy(k, e) && policy(k, e') && e != e';
      var c: Bytes16 := seq(16, _ => 0);
      var steps, f := TwoEventsOneKey(k, c, e, e');
      forall i | 0 <= i < |steps| && steps[i].Deposit? ensures policy(steps[i].key, steps[i].minted.signedEvent) {
        assert steps[i] in steps;
      }
      assert Obeys(steps, policy);
      assert !EventsHonest(f.docs["B"], f.relays);
    }
  }

  function EmptyFleet(): Fleet {
    Fleet(map["A" := map[], "B" := map[]], {}, {})
  }

  /** A's entry once A has relayed it, and B's once B has merged that. */
  function AckedByA(c: Bytes16, e: seq<byte>): IntroEntry {
    Deposited(c, Minted(e, Hlc(1, 0, [0x41]))).(relayedBy := {"A"})
  }

  function Clashed(k: string, c: Bytes16, e: seq<byte>, e': seq<byte>): Fleet {
    var yours := Deposited(c, Minted(e', Hlc(1, 0, [0x42]))).(relayedBy := {"A"});
    Fleet(map["A" := map[k := AckedByA(c, e)], "B" := map[k := yours]], {map[k := AckedByA(c, e)]}, {Ack("A", k, e)})
  }

  /** Both have deposited. */
  function TwoDeposits(k: string, c: Bytes16, e: seq<byte>, e': seq<byte>): Fleet {
    Fleet(map["A" := map[k := Deposited(c, Minted(e, Hlc(1, 0, [0x41])))],
              "B" := map[k := Deposited(c, Minted(e', Hlc(1, 0, [0x42])))]], {}, {})
  }

  /** And A has relayed its own. */
  function OneRelay(k: string, c: Bytes16, e: seq<byte>, e': seq<byte>): Fleet {
    Fleet(TwoDeposits(k, c, e, e').docs["A" := map[k := AckedByA(c, e)]], {}, {Ack("A", k, e)})
  }

  /** Deposits only of one of two events under one key. */
  ghost predicate Clashing(steps: seq<Step>, k: string, c: Bytes16, e: seq<byte>, e': seq<byte>) {
    forall s :: s in steps && s.Deposit? ==> s.key == k && s.community == c && s.minted.signedEvent in {e, e'}
  }

  lemma BothDeposit(k: string, c: Bytes16, e: seq<byte>, e': seq<byte>) returns (steps: seq<Step>)
    ensures Runs(EmptyFleet(), steps, TwoDeposits(k, c, e, e')) && Clashing(steps, k, c, e, e')
  {
    var first := Deposit("A", k, c, Minted(e, Hlc(1, 0, [0x41])));
    var second := Deposit("B", k, c, Minted(e', Hlc(1, 0, [0x42])));
    RunOne(Apply(EmptyFleet(), first), second);
    assert Apply(Apply(EmptyFleet(), first), second).docs == TwoDeposits(k, c, e, e').docs;
    RunCons(EmptyFleet(), first, [second], TwoDeposits(k, c, e, e'));
    steps := [first] + [second];
  }

  lemma ARelays(k: string, c: Bytes16, e: seq<byte>, e': seq<byte>) returns (steps: seq<Step>)
    ensures Runs(TwoDeposits(k, c, e, e'), steps, OneRelay(k, c, e, e')) && Clashing(steps, k, c, e, e')
  {
    var relay: Relay := (_, _) => Relayed;
    var f, sweep := TwoDeposits(k, c, e, e'), SweepAt("A", relay, {"A", "B"}, 1);
    var own := f.docs["A"][k];
    assert "A" in sweep.enrolled && !Covered(sweep.enrolled, own) && !Expired(sweep.nowMs, own);
    assert Acked("A", relay, k, own).relayedBy == {"A"};
    assert NewlyRelayed(f.docs["A"], "A", relay) == {k};
    assert SweepAcks(f.docs["A"], "A", relay) == {Ack("A", k, e)};
    assert Sweep(f.docs["A"], "A", relay, sweep.enrolled, sweep.nowMs) == map[k := AckedByA(c, e)];
    assert Apply(f, sweep) == OneRelay(k, c, e, e');
    RunOne(f, sweep);
    steps := [sweep];
  }

  lemma BMerges(k: string, c: Bytes16, e: seq<byte>, e': seq<byte>) returns (steps: seq<Step>)
    ensures Runs(OneRelay(k, c, e, e'), steps, Clashed(k, c, e, e')) && Clashing(steps, k, c, e, e')
  {
    var f, publish, receive := OneRelay(k, c, e, e'), Publish("A"), Receive("B", map[k := AckedByA(c, e)]);
    var g := Apply(f, publish);
    assert g.flight == {map[k := AckedByA(c, e)]};
    RunOne(g, receive);
    var own, theirs := f.docs["B"][k], AckedByA(c, e);
    assert MergedEntry(own, theirs).relayedBy == {"A"};
    assert Merge(f.docs["B"], receive.snapshot) == map[k := MergedEntry(own, theirs)];
    assert Apply(g, receive) == Clashed(k, c, e, e');
    RunCons(f, publish, [receive], Clashed(k, c, e, e'));
    steps := [publish] + [receive];
  }

  lemma ClashIsDishonest(k: string, c: Bytes16, e: seq<byte>, e': seq<byte>)
    requires e != e'
    ensures var f := Clashed(k, c, e, e'); "B" in f.docs && !EventsHonest(f.docs["B"], f.relays)
    ensures Initial(EmptyFleet())
  {
    var doc := Clashed(k, c, e, e').docs["B"];
    assert k in doc && "A" in doc[k].relayedBy;
  }

  /** Two devices deposit different events under one key. After one relay and one
      merge, B's document records an ack by A beside an event A never relayed. */
  lemma TwoEventsOneKey(k: string, c: Bytes16, e: seq<byte>, e': seq<byte>) returns (steps: seq<Step>, f: Fleet)
    requires e != e'
    ensures Initial(EmptyFleet()) && Runs(EmptyFleet(), steps, f) && Clashing(steps, k, c, e, e')
    ensures "B" in f.docs && !EventsHonest(f.docs["B"], f.relays)
  {
    hide Runs, Clashed, TwoDeposits, OneRelay, EventsHonest, Initial;
    f := Clashed(k, c, e, e');
    ClashIsDishonest(k, c, e, e');
    var deposits := BothDeposit(k, c, e, e');
    var sweep := ARelays(k, c, e, e');
    var merge := BMerges(k, c, e, e');
    RunConcat(EmptyFleet(), deposits, TwoDeposits(k, c, e, e'), sweep, OneRelay(k, c, e, e'));
    RunConcat(EmptyFleet(), deposits + sweep, OneRelay(k, c, e, e'), merge, f);
    steps := deposits + sweep + merge;
  }

  lemma {:induction false} RunConcat(f: Fleet, a: seq<Step>, g: Fleet, b: seq<Step>, h: Fleet)
    requires Runs(f, a, g) && Runs(g, b, h)
    ensures Runs(f, a + b, h)
    decreases a
  {
    if a == [] {
      assert a + b == b;
    } else {
      RunConcat(Apply(f, a[0]), a[1..], g, b, h);
      ConcatFirst(a, b);
    }
  }

  /** Retirements are such a case: the event carries a random id, so any two
      devices that deposit the retirement of one device sign different events. */
  lemma RetireAcksWrongEvent(c: Bytes16, retired: DeviceId, e: seq<byte>, e': seq<byte>)
    returns (steps: seq<Step>, f: Fleet)
    requires e != e'
    ensures Initial(EmptyFleet()) && Runs(EmptyFleet(), steps, f)
    ensures forall i :: 0 <= i < |steps| && steps[i].Deposit? ==> steps[i].key == RetireKey(c, retired)
    ensures "B" in f.docs && !EventsHonest(f.docs["B"], f.relays)
  {
    hide RetireKey;
    steps, f := TwoEventsOneKey(RetireKey(c, retired), c, e, e');
    forall i | 0 <= i < |steps| && steps[i].Deposit? ensures steps[i].key == RetireKey(c, retired) {
      assert steps[i] in steps;
    }
  }

  lemma RunOne(f: Fleet, s: Step)
    requires Enabled(f, s)
    ensures Runs(f, [s], Apply(f, s))
  {
    assert [s][1..] == [];
    assert Runs(Apply(f, s), [s][1..], Apply(f, s));
  }

  lemma RunCons(f: Fleet, s: Step, rest: seq<Step>, g: Fleet)
    requires Enabled(f, s) && Runs(Apply(f, s), rest, g)
    ensures Runs(f, [s] + rest, g)
  {
    assert ([s] + rest)[1..] == rest;
  }
}
