/** What every plan of the buddy-pin planner keeps: the shared budget, each
    pledge, list order, and no work on what it releases. */
module PinPlannerSafety {
  import opened Prelude
  import opened PinPlanner

  // ----- exact byte counts -----

  function FetchedBytes(adds: seq<Addition>): nat {
    if adds == [] then 0
    else FetchedBytes(adds[..|adds| - 1]) + if adds[|adds| - 1].Fetch? then adds[|adds| - 1].bytes else 0
  }

  function BuddyBytes(adds: seq<Addition>, buddy: string): nat {
    if adds == [] then 0
    else BuddyBytes(adds[..|adds| - 1], buddy) + if adds[|adds| - 1].buddy == buddy then adds[|adds| - 1].bytes else 0
  }

  predicate HasFetch(adds: seq<Addition>) {
    exists i :: 0 <= i < |adds| && adds[i].Fetch?
  }

  predicate HasAddition(adds: seq<Addition>, buddy: string) {
    exists i :: 0 <= i < |adds| && adds[i].buddy == buddy
  }

  lemma AppendCounts(adds: seq<Addition>, a: Addition, buddy: string)
    ensures FetchedBytes(adds + [a]) == FetchedBytes(adds) + if a.Fetch? then a.bytes else 0
    ensures BuddyBytes(adds + [a], buddy) == BuddyBytes(adds, buddy) + if a.buddy == buddy then a.bytes else 0
    ensures HasFetch(adds + [a]) <==> HasFetch(adds) || a.Fetch?
    ensures HasAddition(adds + [a], buddy) <==> HasAddition(adds, buddy) || a.buddy == buddy
  {
    var all := adds + [a];
    assert all[..|adds|] == adds && all[|adds|] == a;
    assert forall i :: 0 <= i < |adds| ==> all[i] == adds[i];
  }

  lemma {:induction false} NoAdditionNoBytes(adds: seq<Addition>, buddy: string)
    requires !HasAddition(adds, buddy)
    ensures BuddyBytes(adds, buddy) == 0
  {
    if adds != [] {
      assert adds[|adds| - 1].buddy != buddy;
      assert forall i :: 0 <= i < |adds| - 1 ==> adds[..|adds| - 1][i] == adds[i];
      NoAdditionNoBytes(adds[..|adds| - 1], buddy);
    }
  }

  lemma {:induction false} ClaimSumExact(fs: seq<Inflight>)
    requires Claims(fs) <= U64_MAX
    ensures ClaimSum(fs) == Claims(fs)
  {
    if fs != [] {
      ClaimSumExact(fs[..|fs| - 1]);
    }
  }

  /** One entry adds at most one addition, of that entry, within the guards. */
  predicate Admits(s: Snapshot, budget: u64, pact: Pact, e: Entry, w: Walk, a: Addition) {
    && a.buddy == pact.buddy && a.cid == e.cid
    && SatAdd(w.attributed, a.bytes) <= pact.slice
    && (a.Fetch? ==> SatAdd(SatAdd(s.distinctBytes, w.reserved), a.bytes) <= budget)
  }

  lemma AddCounts(w: Walk, a: Addition, buddy: string)
    ensures var next := Add(w, a);
            && FetchedBytes(next.adds) == FetchedBytes(w.adds) + (if a.Fetch? then a.bytes else 0)
            && BuddyBytes(next.adds, buddy) == BuddyBytes(w.adds, buddy) + (if a.buddy == buddy then a.bytes else 0)
            && (HasFetch(next.adds) <==> HasFetch(w.adds) || a.Fetch?)
            && next.attributed == WrapAdd(w.attributed, a.bytes)
            && next.reserved == if a.Fetch? then WrapAdd(w.reserved, a.bytes) else w.reserved
  {
    hide FetchedBytes, BuddyBytes, HasFetch, HasAddition, WrapAdd;
    AppendCounts(w.adds, a, buddy);
  }

  predicate Unmoved(w: Walk, next: Walk) {
    next.adds == w.adds && next.reserved == w.reserved && next.attributed == w.attributed
  }

  lemma BudgetGuard(distinct: u64, reserved: u64, bytes: u64, budget: u64)
    requires budget < U64_MAX && SatAdd(SatAdd(distinct, reserved), bytes) <= budget
    ensures distinct + reserved + bytes <= budget && WrapAdd(reserved, bytes) == reserved + bytes
  {
  }

  lemma PledgeGuard(attributed: u64, bytes: u64, slice: u64)
    requires slice < U64_MAX && SatAdd(attributed, bytes) <= slice
    ensures attributed + bytes <= slice && WrapAdd(attributed, bytes) == attributed + bytes
  {
  }

  lemma VisitShape(s: Snapshot, budget: u64, pact: Pact, e: Entry, w: Walk) returns (a: Option<Addition>)
    ensures a.None? ==> Unmoved(w, Visit(s, budget, pact, e, w))
    ensures a.Some? ==> Visit(s, budget, pact, e, w) == Add(w, a.value) && Admits(s, budget, pact, e, w, a.value)
  {
    hide InFlight, SatAdd, WrapAdd;
    var next := Visit(s, budget, pact, e, w);
    a := None;
    if next.adds != w.adds {
      a := Some(next.adds[|w.adds|]);
    }
  }

  // ----- the shared budget -----

  /** The claims in flight add up in 64 bits. */
  predicate ClaimsFit(s: Snapshot) {
    Claims(s.inflight) <= U64_MAX
  }

  predicate WithinBudget(s: Snapshot, budget: u64, adds: seq<Addition>) {
    HasFetch(adds) ==> s.distinctBytes + Claims(s.inflight) + FetchedBytes(adds) <= budget
  }

  predicate BudgetInv(s: Snapshot, budget: u64, w: Walk) {
    && w.reserved == Claims(s.inflight) + FetchedBytes(w.adds)
    && WithinBudget(s, budget, w.adds)
  }

  lemma AddBudget(s: Snapshot, budget: u64, w: Walk, a: Addition)
    requires budget < U64_MAX && BudgetInv(s, budget, w)
    requires a.Fetch? ==> SatAdd(SatAdd(s.distinctBytes, w.reserved), a.bytes) <= budget
    ensures BudgetInv(s, budget, Add(w, a))
  {
    hide Add, FetchedBytes, HasFetch, Claims, SatAdd, WrapAdd;
    AddCounts(w, a, a.buddy);
    if a.Fetch? {
      BudgetGuard(s.distinctBytes, w.reserved, a.bytes, budget);
    }
  }

  lemma VisitBudget(s: Snapshot, budget: u64, pact: Pact, e: Entry, w: Walk)
    requires budget < U64_MAX && BudgetInv(s, budget, w)
    ensures BudgetInv(s, budget, Visit(s, budget, pact, e, w))
  {
    hide Visit, Add, SatAdd, WrapAdd, WithinBudget, FetchedBytes, Claims;
    var a := VisitShape(s, budget, pact, e, w);
    if a.Some? {
      AddBudget(s, budget, w, a.value);
    }
  }

  lemma {:induction false} EntriesBudget(s: Snapshot, budget: u64, pact: Pact, entries: seq<Entry>, w: Walk)
    requires budget < U64_MAX && BudgetInv(s, budget, w)
    ensures BudgetInv(s, budget, WalkEntries(s, budget, pact, entries, w))
    decreases |entries|
  {
    hide BudgetInv, Visit;
    if entries != [] && !w.stopped {
      VisitBudget(s, budget, pact, entries[0], w);
      EntriesBudget(s, budget, pact, entries[1..], Visit(s, budget, pact, entries[0], w));
    }
  }

  lemma {:induction false} PactsBudget(s: Snapshot, budget: u64, pacts: seq<Pact>, w: Walk)
    requires budget < U64_MAX && BudgetInv(s, budget, w)
    ensures BudgetInv(s, budget, WalkPacts(s, budget, pacts, w))
    decreases |pacts|
  {
    if pacts != [] {
      var pact := pacts[0];
      match s.backupSet(pact.buddy) {
        case Some(entries) => EntriesBudget(s, budget, pact, entries, Enter(s, pact, w));
        case None =>
      }
      hide BudgetInv, WalkEntries;
      PactsBudget(s, budget, pacts[1..], WalkPact(s, budget, pact, w));
    }
  }

  /** If any fetch is planned, stored bytes, claims in flight and planned claims
      together stay within the shared budget. */
  lemma BudgetKept(s: Snapshot, budget: u64, pledges: seq<Pact>)
    requires budget < U64_MAX && ClaimsFit(s)
    ensures WithinBudget(s, budget, Walked(s, budget, pledges).adds)
  {
    ClaimSumExact(s.inflight);
    PactsBudget(s, budget, Active(pledges, s.pledgers), Start(s));
  }

  /** One pact of one entry, with nothing in flight. */
  function OneEntry(distinct: u64, charged: u64, size: u64): Snapshot {
    Snapshot(false, distinct, _ => charged, (_, _) => false, _ => None, [], _ => [],
             _ => Some([Entry("c", size)]), {"b"}, _ => false, [])
  }

  lemma OneEntryWalk(distinct: u64, charged: u64, budget: u64, slice: u64)
    requires SatAdd(charged, 1) <= slice && SatAdd(distinct, 1) <= budget
    ensures var s := OneEntry(distinct, charged, 1);
            && ClaimsFit(s)
            && Walked(s, budget, [Pact("b", slice)]).adds == [Fetch("b", "c", 1)]
  {
    var s := OneEntry(distinct, charged, 1);
    var pact, e := Pact("b", slice), Entry("c", 1);
    assert [pact][1..] == [] && [e][1..] == [];
    assert Active([pact], s.pledgers) == [pact];
    var w := Start(s).(attributed := charged, stopped := false);
    assert Charged(s, "b") == charged;
    assert Visit(s, budget, pact, e, w).adds == [Fetch("b", "c", 1)];
    assert WalkEntries(s, budget, pact, [e], w) == Visit(s, budget, pact, e, w);
    assert WalkPact(s, budget, pact, Start(s)) == Visit(s, budget, pact, e, w);
    var after := WalkPact(s, budget, pact, Start(s));
    assert WalkPacts(s, budget, [pact], Start(s)) == WalkPacts(s, budget, [pact][1..], after);
  }

  /** The saturating comparison protects the budget for every ledger and every
      backup set exactly when the budget is not the largest 64-bit value: there
      the saturated total is never above it. */
  lemma BudgetSafeIffNotMax(budget: u64)
    ensures (forall s, pledges :: ClaimsFit(s) ==> WithinBudget(s, budget, Walked(s, budget, pledges).adds))
       <==> budget < U64_MAX
  {
    if budget < U64_MAX {
      forall s: Snapshot, pledges: seq<Pact> | ClaimsFit(s)
        ensures WithinBudget(s, budget, Walked(s, budget, pledges).adds)
      {
        BudgetKept(s, budget, pledges);
      }
    } else {
      var s := OneEntry(U64_MAX, 0, 1);
      var adds := [Fetch("b", "c", 1)];
      OneEntryWalk(U64_MAX, 0, budget, 1);
      assert adds[0].Fetch?;
      AppendCounts([], adds[0], "b");
      assert [] + adds == adds;
      assert !WithinBudget(s, budget, Walked(s, budget, [Pact("b", 1)]).adds);
    }
  }

  // ----- the pledges -----

  predicate ChargeFits(s: Snapshot, buddy: string) {
    s.bytesFor(buddy) + Claims(ClaimsOf(s.inflight, buddy)) <= U64_MAX
  }

  predicate WithinPledge(s: Snapshot, pact: Pact, adds: seq<Addition>) {
    HasAddition(adds, pact.buddy) ==>
      s.bytesFor(pact.buddy) + Claims(ClaimsOf(s.inflight, pact.buddy)) + BuddyBytes(adds, pact.buddy) <= pact.slice
  }

  predicate PledgeInv(s: Snapshot, pact: Pact, w: Walk) {
    && w.attributed
       == s.bytesFor(pact.buddy) + Claims(ClaimsOf(s.inflight, pact.buddy)) + BuddyBytes(w.adds, pact.buddy)
    && WithinPledge(s, pact, w.adds)
  }

  lemma AddPledge(s: Snapshot, pact: Pact, w: Walk, a: Addition)
    requires pact.slice < U64_MAX && PledgeInv(s, pact, w)
    requires a.buddy == pact.buddy && SatAdd(w.attributed, a.bytes) <= pact.slice
    ensures PledgeInv(s, pact, Add(w, a))
  {
    hide Add, BuddyBytes, HasAddition, Claims, ClaimsOf, SatAdd, WrapAdd;
    AddCounts(w, a, pact.buddy);
    PledgeGuard(w.attributed, a.bytes, pact.slice);
  }

  lemma VisitPledge(s: Snapshot, budget: u64, pact: Pact, e: Entry, w: Walk)
    requires pact.slice < U64_MAX && PledgeInv(s, pact, w)
    ensures PledgeInv(s, pact, Visit(s, budget, pact, e, w))
  {
    hide Visit, Add, SatAdd, WrapAdd, WithinPledge, BuddyBytes, Claims, ClaimsOf;
    var a := VisitShape(s, budget, pact, e, w);
    if a.Some? {
      AddPledge(s, pact, w, a.value);
    }
  }

  lemma {:induction false} EntriesPledge(s: Snapshot, budget: u64, pact: Pact, entries: seq<Entry>, w: Walk)
    requires pact.slice < U64_MAX && PledgeInv(s, pact, w)
    ensures PledgeInv(s, pact, WalkEntries(s, budget, pact, entries, w))
    decreases |entries|
  {
    hide PledgeInv, Visit;
    if entries != [] && !w.stopped {
      VisitPledge(s, budget, pact, entries[0], w);
      EntriesPledge(s, budget, pact, entries[1..], Visit(s, budget, pact, entries[0], w));
    }
  }

  /** The walk of one pact adds nothing to another. */
  lemma {:induction false} EntriesForeign(s: Snapshot, budget: u64, pact: Pact, entries: seq<Entry>, w: Walk,
                                          buddy: string)
    requires pact.buddy != buddy
    ensures var adds := WalkEntries(s, budget, pact, entries, w).adds;
            && BuddyBytes(adds, buddy) == BuddyBytes(w.adds, buddy)
            && (HasAddition(adds, buddy) <==> HasAddition(w.adds, buddy))
    decreases |entries|
  {
    hide BuddyBytes, HasAddition;
    if entries != [] && !w.stopped {
      var a := VisitShape(s, budget, pact, entries[0], w);
      if a.Some? {
        AppendCounts(w.adds, a.value, buddy);
      }
      hide Visit;
      EntriesForeign(s, budget, pact, entries[1..], Visit(s, budget, pact, entries[0], w), buddy);
    }
  }

  lemma PactForeign(s: Snapshot, budget: u64, pact: Pact, w: Walk, buddy: string)
    requires pact.buddy != buddy
    ensures var adds := WalkPact(s, budget, pact, w).adds;
            && BuddyBytes(adds, buddy) == BuddyBytes(w.adds, buddy)
            && (HasAddition(adds, buddy) <==> HasAddition(w.adds, buddy))
  {
    match s.backupSet(pact.buddy) {
      case Some(entries) =>
        EntriesForeign(s, budget, pact, entries, Enter(s, pact, w), buddy);
      case None =>
    }
  }

  lemma {:induction false} PactsForeign(s: Snapshot, budget: u64, pacts: seq<Pact>, w: Walk, buddy: string)
    requires forall i :: 0 <= i < |pacts| ==> pacts[i].buddy != buddy
    ensures var adds := WalkPacts(s, budget, pacts, w).adds;
            && BuddyBytes(adds, buddy) == BuddyBytes(w.adds, buddy)
            && (HasAddition(adds, buddy) <==> HasAddition(w.adds, buddy))
    decreases |pacts|
  {
    hide BuddyBytes, HasAddition, WalkPact;
    if pacts != [] {
      PactForeign(s, budget, pacts[0], w, buddy);
      PactsForeign(s, budget, pacts[1..], WalkPact(s, budget, pacts[0], w), buddy);
    }
  }

  lemma PactPledge(s: Snapshot, budget: u64, pact: Pact, w: Walk)
    requires pact.slice < U64_MAX && ChargeFits(s, pact.buddy) && !HasAddition(w.adds, pact.buddy)
    ensures WithinPledge(s, pact, WalkPact(s, budget, pact, w).adds)
  {
    ClaimSumExact(ClaimsOf(s.inflight, pact.buddy));
    NoAdditionNoBytes(w.adds, pact.buddy);
    match s.backupSet(pact.buddy) {
      case Some(entries) => EntriesPledge(s, budget, pact, entries, Enter(s, pact, w));
      case None =>
    }
  }

  lemma {:induction false} PactsPledge(s: Snapshot, budget: u64, pacts: seq<Pact>, w: Walk, k: nat)
    requires DistinctBuddies(pacts) && k < |pacts| && pacts[k].slice < U64_MAX && ChargeFits(s, pacts[k].buddy)
    requires !HasAddition(w.adds, pacts[k].buddy)
    ensures WithinPledge(s, pacts[k], WalkPacts(s, budget, pacts, w).adds)
    decreases |pacts|
  {
    hide WalkPact, HasAddition, BuddyBytes, Claims, ClaimsOf;
    var next := WalkPact(s, budget, pacts[0], w);
    if k == 0 {
      PactPledge(s, budget, pacts[0], w);
      PactsForeign(s, budget, pacts[1..], next, pacts[0].buddy);
    } else {
      PactForeign(s, budget, pacts[0], w, pacts[k].buddy);
      PactsPledge(s, budget, pacts[1..], next, k - 1);
    }
  }

  lemma {:induction false} ActiveDistinct(pledges: seq<Pact>, pledgers: set<string>)
    requires DistinctBuddies(pledges)
    ensures DistinctBuddies(Active(pledges, pledgers))
  {
    if pledges != [] {
      ActiveDistinct(pledges[1..], pledgers);
      var rest := Active(pledges[1..], pledgers);
      forall j | 0 <= j < |rest| ensures rest[j].buddy != pledges[0].buddy {
        ActiveMember(pledges[1..], pledgers, rest[j]);
        var i :| 0 <= i < |pledges[1..]| && pledges[1..][i] == rest[j];
        assert pledges[i + 1] == rest[j];
      }
    }
  }

  /** For each active pact with planned additions, what the ledger charges to the
      buddy, what is in flight for it and what is planned stay within the pledge. */
  lemma PledgeKept(s: Snapshot, budget: u64, pledges: seq<Pact>, pact: Pact)
    requires DistinctBuddies(pledges) && pact in pledges && pact.buddy in s.pledgers
    requires pact.slice < U64_MAX && ChargeFits(s, pact.buddy)
    ensures WithinPledge(s, pact, Walked(s, budget, pledges).adds)
  {
    ActiveMember(pledges, s.pledgers, pact);
    ActiveDistinct(pledges, s.pledgers);
    var active := Active(pledges, s.pledgers);
    var k :| 0 <= k < |active| && active[k] == pact;
    PactsPledge(s, budget, active, Start(s), k);
  }

  /** As with the budget, a pledge binds every plan exactly when it is not the
      largest 64-bit value. */
  lemma PledgeSafeIffNotMax(slice: u64)
    ensures (forall s: Snapshot, budget: u64 :: ChargeFits(s, "b") && "b" in s.pledgers ==>
               WithinPledge(s, Pact("b", slice), Walked(s, budget, [Pact("b", slice)]).adds))
       <==> slice < U64_MAX
  {
    if slice < U64_MAX {
      forall s: Snapshot, budget: u64 | ChargeFits(s, "b") && "b" in s.pledgers
        ensures WithinPledge(s, Pact("b", slice), Walked(s, budget, [Pact("b", slice)]).adds)
      {
        PledgeKept(s, budget, [Pact("b", slice)], Pact("b", slice));
      }
    } else {
      var s := OneEntry(0, U64_MAX, 1);
      var adds := [Fetch("b", "c", 1)];
      OneEntryWalk(0, U64_MAX, 1, slice);
      assert adds[0].buddy == "b";
      AppendCounts([], adds[0], "b");
      assert [] + adds == adds;
      assert !WithinPledge(s, Pact("b", slice), Walked(s, 1, [Pact("b", slice)]).adds);
    }
  }

  // ----- every addition is justified -----

  /** A reason to add: the pact lists the entry, does not hold it, nothing is in
      flight for it; stored bytes are attributed, absent bytes are fetched. */
  predicate Justified(s: Snapshot, a: Addition) {
    && Listed(s, a.buddy, a.cid) && !s.holds(a.buddy, a.cid) && !InFlight(s, a.cid)
    && match a
       case Attribute(_, cid, bytes) => s.heldAnywhere(cid) == Some(bytes)
       case Fetch(buddy, cid, bytes) =>
         s.heldAnywhere(cid) == None && !s.backoff(cid) && Entry(cid, bytes) in s.backupSet(buddy).value
  }

  predicate JustifiedFor(s: Snapshot, pacts: seq<Pact>, a: Addition) {
    Justified(s, a) && exists i :: 0 <= i < |pacts| && pacts[i].buddy == a.buddy
  }

  lemma {:induction false} EntriesJustified(s: Snapshot, budget: u64, pact: Pact, entries: seq<Entry>, w: Walk,
                                            a: Addition)
    requires s.backupSet(pact.buddy).Some? && forall e :: e in entries ==> e in s.backupSet(pact.buddy).value
    requires a in WalkEntries(s, budget, pact, entries, w).adds
    ensures a in w.adds || (Justified(s, a) && a.buddy == pact.buddy)
    decreases |entries|
  {
    hide InFlight;
    if entries != [] && !w.stopped {
      var next := Visit(s, budget, pact, entries[0], w);
      EntriesJustified(s, budget, pact, entries[1..], next, a);
      assert entries[0] in s.backupSet(pact.buddy).value;
    }
  }

  lemma {:induction false} PactsJustified(s: Snapshot, budget: u64, pacts: seq<Pact>, w: Walk, a: Addition)
    requires a in WalkPacts(s, budget, pacts, w).adds
    ensures a in w.adds || JustifiedFor(s, pacts, a)
    decreases |pacts|
  {
    hide Justified;
    if pacts != [] {
      var pact := pacts[0];
      PactsJustified(s, budget, pacts[1..], WalkPact(s, budget, pact, w), a);
      if a in WalkPact(s, budget, pact, w).adds {
        match s.backupSet(pact.buddy) {
          case Some(entries) =>
            EntriesJustified(s, budget, pact, entries, Enter(s, pact, w), a);
          case None =>
        }
      } else {
        var i :| 0 <= i < |pacts[1..]| && pacts[1..][i].buddy == a.buddy;
        assert pacts[i + 1].buddy == a.buddy;
      }
    }
  }

  /** Every planned addition is justified and belongs to an active pact, so no pair
      the plan releases is also fetched or attributed. */
  lemma AdditionsJustified(s: Snapshot, budget: u64, pledges: seq<Pact>, a: Addition)
    requires a in Walked(s, budget, pledges).adds
    ensures Justified(s, a) && IsActive(s, pledges, a.buddy)
  {
    var active := Active(pledges, s.pledgers);
    PactsJustified(s, budget, active, Start(s), a);
    var i :| 0 <= i < |active| && active[i].buddy == a.buddy;
    ActiveMember(pledges, s.pledgers, active[i]);
  }

  /** A released pair, or a released buddy, gets no addition. */
  lemma ReleasedNeverAdded(s: Snapshot, budget: u64, pledges: seq<Pact>, buddy: string, cid: string)
    requires !IsActive(s, pledges, buddy) || !Listed(s, buddy, cid)
    ensures forall a :: a in Walked(s, budget, pledges).adds ==> !(a.buddy == buddy && a.cid == cid)
  {
    forall a | a in Walked(s, budget, pledges).adds ensures !(a.buddy == buddy && a.cid == cid) {
      AdditionsJustified(s, budget, pledges, a);
    }
  }

  // ----- list order -----

  function CidsFor(adds: seq<Addition>, buddy: string): seq<string> {
    if adds == [] then []
    else CidsFor(adds[..|adds| - 1], buddy) + if adds[|adds| - 1].buddy == buddy then [adds[|adds| - 1].cid] else []
  }

  /** `xs` is `ys` with some elements left out. */
  predicate Subsequence(xs: seq<string>, ys: seq<string>) {
    xs == [] || (ys != [] && (Subsequence(xs, ys[1..]) || (xs[0] == ys[0] && Subsequence(xs[1..], ys[1..]))))
  }

  function Cids(entries: seq<Entry>): seq<string> {
    if entries == [] then [] else [entries[0].cid] + Cids(entries[1..])
  }

  lemma CidsForAppend(adds: seq<Addition>, a: Addition, buddy: string)
    ensures CidsFor(adds + [a], buddy) == CidsFor(adds, buddy) + if a.buddy == buddy then [a.cid] else []
  {
    assert (adds + [a])[..|adds|] == adds;
  }

  /** The pact's additions extend its earlier ones by a subsequence of its list. */
  lemma {:induction false} EntriesInOrder(s: Snapshot, budget: u64, pact: Pact, entries: seq<Entry>, w: Walk)
    returns (more: seq<string>)
    ensures CidsFor(WalkEntries(s, budget, pact, entries, w).adds, pact.buddy) == CidsFor(w.adds, pact.buddy) + more
    ensures Subsequence(more, Cids(entries))
    decreases |entries|
  {
    hide CidsFor, Visit;
    more := [];
    if entries != [] && !w.stopped {
      var e := entries[0];
      var a := VisitShape(s, budget, pact, e, w);
      more := EntriesInOrder(s, budget, pact, entries[1..], Visit(s, budget, pact, e, w));
      assert Cids(entries)[0] == e.cid && Cids(entries)[1..] == Cids(entries[1..]);
      if a.Some? {
        CidsForAppend(w.adds, a.value, pact.buddy);
        ConcatAssociates(CidsFor(w.adds, pact.buddy), [e.cid], more);
        assert ([e.cid] + more)[1..] == more;
        more := [e.cid] + more;
      }
    }
  }

  lemma {:induction false} EntriesForeignCids(s: Snapshot, budget: u64, pact: Pact, entries: seq<Entry>, w: Walk,
                                              buddy: string)
    requires pact.buddy != buddy
    ensures CidsFor(WalkEntries(s, budget, pact, entries, w).adds, buddy) == CidsFor(w.adds, buddy)
    decreases |entries|
  {
    hide CidsFor, Visit;
    if entries != [] && !w.stopped {
      var a := VisitShape(s, budget, pact, entries[0], w);
      EntriesForeignCids(s, budget, pact, entries[1..], Visit(s, budget, pact, entries[0], w), buddy);
      if a.Some? {
        CidsForAppend(w.adds, a.value, buddy);
      }
    }
  }

  lemma {:induction false} PactsInOrder(s: Snapshot, budget: u64, pacts: seq<Pact>, w: Walk, buddy: string)
    requires DistinctBuddies(pacts)
    ensures var cids := CidsFor(WalkPacts(s, budget, pacts, w).adds, buddy);
            || cids == CidsFor(w.adds, buddy)
            || (s.backupSet(buddy).Some? && exists more ::
                  Subsequence(more, Cids(s.backupSet(buddy).value)) && cids == CidsFor(w.adds, buddy) + more)
    ensures (forall i :: 0 <= i < |pacts| ==> pacts[i].buddy != buddy) ==>
              CidsFor(WalkPacts(s, budget, pacts, w).adds, buddy) == CidsFor(w.adds, buddy)
    decreases |pacts|
  {
    hide CidsFor, Subsequence;
    if pacts != [] {
      var pact := pacts[0];
      PactsInOrder(s, budget, pacts[1..], WalkPact(s, budget, pact, w), buddy);
      match s.backupSet(pact.buddy) {
        case Some(entries) =>
          var inner := Enter(s, pact, w);
          if pact.buddy == buddy {
            var more := EntriesInOrder(s, budget, pact, entries, inner);
          } else {
            EntriesForeignCids(s, budget, pact, entries, inner, buddy);
          }
        case None =>
      }
    }
  }

  /** A buddy's planned additions follow the order of its backup set. */
  lemma AdditionsFollowList(s: Snapshot, budget: u64, pledges: seq<Pact>, buddy: string)
    requires DistinctBuddies(pledges)
    ensures var cids := CidsFor(Walked(s, budget, pledges).adds, buddy);
            cids == [] || (s.backupSet(buddy).Some? && Subsequence(cids, Cids(s.backupSet(buddy).value)))
  {
    ActiveDistinct(pledges, s.pledgers);
    PactsInOrder(s, budget, Active(pledges, s.pledgers), Start(s), buddy);
    var cids := CidsFor(Walked(s, budget, pledges).adds, buddy);
    if cids != [] {
      var more :| Subsequence(more, Cids(s.backupSet(buddy).value)) && cids == CidsFor([], buddy) + more;
      assert cids == more;
    }
  }

  // ----- catching up -----

  predicate Served(s: Snapshot, adds: seq<Addition>, buddy: string, cid: string) {
    s.holds(buddy, cid) || exists i :: 0 <= i < |adds| && adds[i].buddy == buddy && adds[i].cid == cid
  }

  lemma {:induction false} EntriesServed(s: Snapshot, budget: u64, pact: Pact, entries: seq<Entry>, w: Walk)
    requires !WalkEntries(s, budget, pact, entries, w).catchingUp && !w.stopped
    ensures !w.catchingUp
    ensures w.adds <= WalkEntries(s, budget, pact, entries, w).adds
    ensures forall e :: e in entries ==> Served(s, WalkEntries(s, budget, pact, entries, w).adds, pact.buddy, e.cid)
    decreases |entries|
  {
    hide InFlight;
    if entries != [] {
      var next := Visit(s, budget, pact, entries[0], w);
      if next.stopped {
        assert false;
      }
      EntriesServed(s, budget, pact, entries[1..], next);
      var end := WalkEntries(s, budget, pact, entries, w).adds;
      assert entries == [entries[0]] + entries[1..];
      if !s.holds(pact.buddy, entries[0].cid) {
        assert next.adds[|w.adds|].cid == entries[0].cid && end[|w.adds|] == next.adds[|w.adds|];
      }
    }
  }

  lemma {:induction false} PactsServed(s: Snapshot, budget: u64, pacts: seq<Pact>, w: Walk, buddy: string, cid: string)
    requires !WalkPacts(s, budget, pacts, w).catchingUp
    ensures !w.catchingUp && w.adds <= WalkPacts(s, budget, pacts, w).adds
    ensures (exists i :: 0 <= i < |pacts| && pacts[i].buddy == buddy) && Listed(s, buddy, cid) ==>
              Served(s, WalkPacts(s, budget, pacts, w).adds, buddy, cid)
    decreases |pacts|
  {
    if pacts != [] {
      var pact := pacts[0];
      var next := WalkPact(s, budget, pact, w);
      PactsServed(s, budget, pacts[1..], next, buddy, cid);
      match s.backupSet(pact.buddy) {
        case Some(entries) =>
          EntriesServed(s, budget, pact, entries, Enter(s, pact, w));
          if pact.buddy == buddy && Listed(s, buddy, cid) {
            var i :| 0 <= i < |entries| && entries[i].cid == cid;
            assert entries[i] in entries;
            assert Served(s, next.adds, buddy, cid);
            ServedGrows(s, next.adds, WalkPacts(s, budget, pacts, w).adds, buddy, cid);
          }
        case None =>
      }
      if i :| 0 <= i < |pacts| && pacts[i].buddy == buddy {
        if i > 0 {
          assert pacts[1..][i - 1].buddy == buddy;
        }
      }
    }
  }

  lemma ServedGrows(s: Snapshot, adds: seq<Addition>, more: seq<Addition>, buddy: string, cid: string)
    requires Served(s, adds, buddy, cid) && adds <= more
    ensures Served(s, more, buddy, cid)
  {
    if !s.holds(buddy, cid) {
      var i :| 0 <= i < |adds| && adds[i].buddy == buddy && adds[i].cid == cid;
      assert more[i] == adds[i];
    }
  }

  /** A plan that does not say it is catching up leaves nothing out: every entry
      every active pact lists is held or planned. */
  lemma NotCatchingUpMeansDone(s: Snapshot, budget: u64, pledges: seq<Pact>, buddy: string, cid: string)
    requires !Walked(s, budget, pledges).catchingUp
    requires IsActive(s, pledges, buddy) && Listed(s, buddy, cid)
    ensures Served(s, Walked(s, budget, pledges).adds, buddy, cid)
  {
    var active := Active(pledges, s.pledgers);
    var i :| 0 <= i < |pledges| && pledges[i].buddy == buddy && buddy in s.pledgers;
    ActiveMember(pledges, s.pledgers, pledges[i]);
    var k :| 0 <= k < |active| && active[k] == pledges[i];
    assert active[k].buddy == buddy;
    PactsServed(s, budget, active, Start(s), buddy, cid);
  }

  // ----- the budget stops every pact -----

  lemma {:induction false} FullFetchesNothing(s: Snapshot, budget: u64, pacts: seq<Pact>, w: Walk)
    requires w.full
    ensures Fetches(WalkPacts(s, budget, pacts, w).adds) == Fetches(w.adds)
    decreases |pacts|
  {
    hide Fetches;
    if pacts != [] {
      match s.backupSet(pacts[0].buddy) {
        case Some(entries) =>
          FullEntries(s, budget, pacts[0], entries, Enter(s, pacts[0], w));
        case None =>
      }
      hide WalkEntries;
      FullFetchesNothing(s, budget, pacts[1..], WalkPact(s, budget, pacts[0], w));
    }
  }

  lemma {:induction false} FullEntries(s: Snapshot, budget: u64, pact: Pact, entries: seq<Entry>, w: Walk)
    requires w.full
    ensures WalkEntries(s, budget, pact, entries, w).full
    ensures Fetches(WalkEntries(s, budget, pact, entries, w).adds) == Fetches(w.adds)
    decreases |entries|
  {
    hide Fetches;
    if entries != [] && !w.stopped {
      var next := Visit(s, budget, pact, entries[0], w);
      FullEntries(s, budget, pact, entries[1..], next);
      if next.adds != w.adds {
        AddSplits(w, next.adds[|w.adds|]);
      }
    }
  }
}
