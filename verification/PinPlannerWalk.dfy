/** The buddy-pin planner's walk without its steps: what each entry of each pact's
    list comes to, and where a pact's walk ends (`src-tauri/src/buddy_pin_planner.rs`). */
module PinPlannerWalk {
  import opened Prelude
  import opened PinPlanner
  import opened PinPlannerSafety

  // ----- what an entry comes to -----

  /** The entry is neither hosted for the buddy nor being fetched for anyone. */
  predicate Due(s: Snapshot, buddy: string, e: Entry) {
    !s.holds(buddy, e.cid) && forall i :: 0 <= i < |s.inflight| ==> s.inflight[i].cid != e.cid
  }

  /** What it counts against the pledge: its actual size if some buddy's copy is
      stored, else its listed size. */
  function BytesOf(s: Snapshot, e: Entry): u64 {
    match s.heldAnywhere(e.cid)
    case Some(actual) => actual
    case None => e.size
  }

  /** The addition for an entry the walk passes: none unless it is due, an attribution
      of stored bytes, or a fetch unless the content is backed off. */
  function AdditionsFor(s: Snapshot, buddy: string, e: Entry): seq<Addition> {
    if !Due(s, buddy, e) then []
    else if s.heldAnywhere(e.cid).Some? then [Attribute(buddy, e.cid, s.heldAnywhere(e.cid).value)]
    else if s.backoff(e.cid) then []
    else [Fetch(buddy, e.cid, e.size)]
  }

  function Planned(s: Snapshot, buddy: string, entries: seq<Entry>): seq<Addition> {
    if entries == [] then []
    else Planned(s, buddy, entries[..|entries| - 1]) + AdditionsFor(s, buddy, entries[|entries| - 1])
  }

  /** The entry is left for a later plan although the walk passes it: it is being
      fetched, or nobody's copy is stored and it is backed off. */
  predicate Waits(s: Snapshot, buddy: string, e: Entry) {
    !s.holds(buddy, e.cid) && (!Due(s, buddy, e) || (s.heldAnywhere(e.cid).None? && s.backoff(e.cid)))
  }

  // ----- where a pact's walk ends -----

  /** What a 64-bit sum that wraps holds. */
  function Mod64(n: nat): u64 {
    n % 0x1_0000_0000_0000_0000
  }

  function Bytes(adds: seq<Addition>): nat {
    if adds == [] then 0 else Bytes(adds[..|adds| - 1]) + adds[|adds| - 1].bytes
  }

  /** The pact's charge: its ledger bytes, its claims in flight and what is planned. */
  function Charge(s: Snapshot, buddy: string, planned: seq<Addition>): u64 {
    Mod64(s.bytesFor(buddy) + Claims(ClaimsOf(s.inflight, buddy)) + Bytes(planned))
  }

  /** The reservations: all claims in flight and every planned fetch. */
  function Reserved(s: Snapshot, adds: seq<Addition>): u64 {
    Mod64(Claims(s.inflight) + FetchedBytes(adds))
  }

  /** Entry `i` is due and on top of the charge so far exceeds the pledge; the
      largest pledge is never exceeded. */
  predicate OverPledge(s: Snapshot, pact: Pact, entries: seq<Entry>, i: nat)
    requires i < |entries|
  {
    && Due(s, pact.buddy, entries[i])
    && pact.slice < U64_MAX
    && Charge(s, pact.buddy, Planned(s, pact.buddy, entries[..i])) + BytesOf(s, entries[i]) > pact.slice
  }

  /** Entry `i` is within the pledge but would have to be fetched, and the shared
      budget is known to be full or too small for it; the largest budget never is. */
  predicate OverBudget(s: Snapshot, budget: u64, full: bool, before: seq<Addition>, pact: Pact, entries: seq<Entry>,
                       i: nat)
    requires i < |entries|
  {
    && Due(s, pact.buddy, entries[i]) && s.heldAnywhere(entries[i].cid).None?
    && !OverPledge(s, pact, entries, i)
    && (full || (&& budget < U64_MAX
                 && s.distinctBytes + Reserved(s, before + Planned(s, pact.buddy, entries[..i])) + entries[i].size
                    > budget))
  }

  predicate Stops(s: Snapshot, budget: u64, full: bool, before: seq<Addition>, pact: Pact, entries: seq<Entry>, i: nat)
    requires i < |entries|
  {
    OverPledge(s, pact, entries, i) || OverBudget(s, budget, full, before, pact, entries, i)
  }

  /** The walk passes the first `n` entries and ends there: at the end of the list or
      at the first entry that stops it. */
  predicate EndsAt(s: Snapshot, budget: u64, full: bool, before: seq<Addition>, pact: Pact, entries: seq<Entry>, n: nat)
  {
    && n <= |entries|
    && (forall i :: 0 <= i < n ==> !Stops(s, budget, full, before, pact, entries, i))
    && (n < |entries| ==> Stops(s, budget, full, before, pact, entries, n))
  }

  predicate AnyWaits(s: Snapshot, buddy: string, entries: seq<Entry>) {
    exists i :: 0 <= i < |entries| && Waits(s, buddy, entries[i])
  }

  // ----- one pact -----

  /** The walk after `k` entries of a pact it entered with `before` planned. */
  predicate At(s: Snapshot, pact: Pact, entries: seq<Entry>, before: Walk, k: nat, w: Walk)
    requires k <= |entries|
  {
    var planned := Planned(s, pact.buddy, entries[..k]);
    && w.adds == before.adds + planned
    && w.attributed == Charge(s, pact.buddy, planned)
    && w.reserved == Reserved(s, before.adds + planned)
    && w.full == before.full && !w.stopped
    && (w.catchingUp <==> before.catchingUp || AnyWaits(s, pact.buddy, entries[..k]))
  }

  lemma WrapIsMod(n: nat, b: u64)
    ensures WrapAdd(Mod64(n), b) == Mod64(n + b)
  {
    assert n % 0x1_0000_0000_0000_0000 + b < 2 * 0x1_0000_0000_0000_0000;
  }

  lemma SatExceeds(a: u64, b: u64, limit: u64)
    ensures SatAdd(a, b) > limit <==> limit < U64_MAX && a + b > limit
  {
  }

  lemma SatExceedsTwice(a: u64, b: u64, c: u64, limit: u64)
    ensures SatAdd(SatAdd(a, b), c) > limit <==> limit < U64_MAX && a + b + c > limit
  {
  }

  lemma BytesAppend(adds: seq<Addition>, a: Addition)
    ensures Bytes(adds + [a]) == Bytes(adds) + a.bytes
    ensures FetchedBytes(adds + [a]) == FetchedBytes(adds) + if a.Fetch? then a.bytes else 0
  {
    assert (adds + [a])[..|adds|] == adds;
  }

  /** One more addition in the charge and the reservations. */
  lemma AddCharges(s: Snapshot, buddy: string, planned: seq<Addition>, before: seq<Addition>, a: Addition)
    ensures Charge(s, buddy, planned + [a]) == WrapAdd(Charge(s, buddy, planned), a.bytes)
    ensures Reserved(s, before + (planned + [a]))
         == if a.Fetch? then WrapAdd(Reserved(s, before + planned), a.bytes) else Reserved(s, before + planned)
  {
    BytesAppend(planned, a);
    BytesAppend(before + planned, a);
    assert before + (planned + [a]) == before + planned + [a];
    hide Bytes, FetchedBytes, WrapAdd, Mod64, Claims, ClaimsOf;
    WrapIsMod(s.bytesFor(buddy) + Claims(ClaimsOf(s.inflight, buddy)) + Bytes(planned), a.bytes);
    WrapIsMod(Claims(s.inflight) + FetchedBytes(before + planned), a.bytes);
  }

  lemma PlannedStep(s: Snapshot, buddy: string, entries: seq<Entry>, k: nat)
    requires k < |entries|
    ensures Planned(s, buddy, entries[..k + 1]) == Planned(s, buddy, entries[..k]) + AdditionsFor(s, buddy, entries[k])
    ensures AnyWaits(s, buddy, entries[..k + 1]) <==> AnyWaits(s, buddy, entries[..k]) || Waits(s, buddy, entries[k])
  {
    assert entries[..k + 1][..k] == entries[..k] && entries[..k + 1][k] == entries[k];
    hide AdditionsFor, AnyWaits;
    WaitsStep(s, buddy, entries, k);
  }

  lemma WaitsStep(s: Snapshot, buddy: string, entries: seq<Entry>, k: nat)
    requires k < |entries|
    ensures AnyWaits(s, buddy, entries[..k + 1]) <==> AnyWaits(s, buddy, entries[..k]) || Waits(s, buddy, entries[k])
  {
    hide Waits;
    var now, before := entries[..k + 1], entries[..k];
    if AnyWaits(s, buddy, before) {
      var i :| 0 <= i < k && Waits(s, buddy, before[i]);
      assert Waits(s, buddy, now[i]);
    }
    if Waits(s, buddy, entries[k]) {
      assert Waits(s, buddy, now[k]);
    }
  }

  lemma DueIs(s: Snapshot, buddy: string, e: Entry)
    ensures Due(s, buddy, e) <==> !s.holds(buddy, e.cid) && !InFlight(s, e.cid)
  {
  }

  /** What visiting an entry does, by what the entry comes to. */
  lemma VisitIs(s: Snapshot, budget: u64, pact: Pact, e: Entry, w: Walk)
    ensures var next := Visit(s, budget, pact, e, w);
            var over := pact.slice < U64_MAX && w.attributed + BytesOf(s, e) > pact.slice;
            var tight := w.full || (budget < U64_MAX && s.distinctBytes + w.reserved + e.size > budget);
            var adds := AdditionsFor(s, pact.buddy, e);
            && (!Due(s, pact.buddy, e) ==> next == w.(catchingUp := w.catchingUp || Waits(s, pact.buddy, e)))
            && (Due(s, pact.buddy, e) && over ==> next == Stop(w))
            && (Due(s, pact.buddy, e) && !over && s.heldAnywhere(e.cid).None? && tight ==>
                  next == Stop(w.(full := true)))
            && (Due(s, pact.buddy, e) && !over && !(s.heldAnywhere(e.cid).None? && tight) ==>
                  next == if adds == [] then w.(catchingUp := true) else Add(w, adds[0]))
  {
    DueIs(s, pact.buddy, e);
    SatExceeds(w.attributed, BytesOf(s, e), pact.slice);
    SatExceedsTwice(s.distinctBytes, w.reserved, e.size, budget);
    hide Due, InFlight, SatAdd, WrapAdd, Add;
  }

  lemma VisitStops(s: Snapshot, budget: u64, pact: Pact, entries: seq<Entry>, before: Walk, k: nat, w: Walk)
    requires k < |entries| && At(s, pact, entries, before, k, w)
    requires Stops(s, budget, before.full, before.adds, pact, entries, k)
    ensures Visit(s, budget, pact, entries[k], w)
         == w.(full := w.full || !OverPledge(s, pact, entries, k), stopped := true, catchingUp := true)
  {
    VisitIs(s, budget, pact, entries[k], w);
    hide Visit, Due, BytesOf, AdditionsFor, Planned, Charge, Reserved;
  }

  lemma VisitPasses(s: Snapshot, budget: u64, pact: Pact, entries: seq<Entry>, before: Walk, k: nat, w: Walk)
    requires k < |entries| && At(s, pact, entries, before, k, w)
    requires !Stops(s, budget, before.full, before.adds, pact, entries, k)
    ensures At(s, pact, entries, before, k + 1, Visit(s, budget, pact, entries[k], w))
  {
    VisitPassing(s, budget, pact, entries, before, k, w);
    hide *;
    AtStep(s, pact, entries, before, k, w, Visit(s, budget, pact, entries[k], w));
  }

  /** A passed entry adds what it comes to. */
  predicate Passed(s: Snapshot, buddy: string, e: Entry, w: Walk, next: Walk) {
    var adds := AdditionsFor(s, buddy, e);
    if adds == [] then next == w.(catchingUp := w.catchingUp || Waits(s, buddy, e))
    else next == Add(w, adds[0]) && !Waits(s, buddy, e)
  }

  lemma VisitPassing(s: Snapshot, budget: u64, pact: Pact, entries: seq<Entry>, before: Walk, k: nat, w: Walk)
    requires k < |entries| && At(s, pact, entries, before, k, w)
    requires !Stops(s, budget, before.full, before.adds, pact, entries, k)
    ensures Passed(s, pact.buddy, entries[k], w, Visit(s, budget, pact, entries[k], w))
  {
    VisitIs(s, budget, pact, entries[k], w);
    hide Visit, Due, BytesOf, Planned, Charge, Reserved, AnyWaits, Add;
  }

  lemma AtStep(s: Snapshot, pact: Pact, entries: seq<Entry>, before: Walk, k: nat, w: Walk, next: Walk)
    requires k < |entries| && At(s, pact, entries, before, k, w) && Passed(s, pact.buddy, entries[k], w, next)
    ensures At(s, pact, entries, before, k + 1, next)
  {
    var planned, adds := Planned(s, pact.buddy, entries[..k]), AdditionsFor(s, pact.buddy, entries[k]);
    assert |adds| <= 1;
    PlannedStep(s, pact.buddy, entries, k);
    hide Waits, AdditionsFor, Planned, Charge, Reserved, AnyWaits, WrapAdd;
    if adds == [] {
      assert planned + adds == planned;
    } else {
      assert adds == [adds[0]];
      AddCharges(s, pact.buddy, planned, before.adds, adds[0]);
      ConcatAssociates(before.adds, planned, adds);
    }
  }

  lemma {:induction false} WalkFrom(s: Snapshot, budget: u64, pact: Pact, entries: seq<Entry>, before: Walk, k: nat,
                                    w: Walk)
    returns (n: nat)
    requires k <= |entries| && At(s, pact, entries, before, k, w)
    requires forall i :: 0 <= i < k ==> !Stops(s, budget, before.full, before.adds, pact, entries, i)
    ensures EndsAt(s, budget, before.full, before.adds, pact, entries, n)
    ensures var end := WalkEntries(s, budget, pact, entries[k..], w);
            && end.adds == before.adds + Planned(s, pact.buddy, entries[..n])
            && end.reserved == Reserved(s, end.adds)
            && (end.full <==> before.full || (n < |entries| && !OverPledge(s, pact, entries, n)))
            && (end.catchingUp <==> before.catchingUp || n < |entries| || AnyWaits(s, pact.buddy, entries[..n]))
    decreases |entries| - k
  {
    hide Visit, Stops, OverPledge, Planned, Charge, Reserved, AnyWaits;
    n := k;
    if k < |entries| {
      DropOne(entries, k);
      if Stops(s, budget, before.full, before.adds, pact, entries, k) {
        VisitStops(s, budget, pact, entries, before, k, w);
      } else {
        VisitPasses(s, budget, pact, entries, before, k, w);
        n := WalkFrom(s, budget, pact, entries, before, k + 1, Visit(s, budget, pact, entries[k], w));
      }
    }
  }

  // ----- the whole walk -----

  function ListOf(s: Snapshot, buddy: string): seq<Entry> {
    match s.backupSet(buddy)
    case Some(entries) => entries
    case None => []
  }

  /** What passing the first `cuts[k]` entries of every pact `k` adds. */
  function PlannedAll(s: Snapshot, pacts: seq<Pact>, cuts: seq<nat>): seq<Addition>
    requires |cuts| == |pacts|
  {
    if pacts == [] then []
    else
      var n := |pacts| - 1;
      var list := ListOf(s, pacts[n].buddy);
      PlannedAll(s, pacts[..n], cuts[..n])
      + Planned(s, pacts[n].buddy, list[..if cuts[n] <= |list| then cuts[n] else |list|])
  }

  /** The walk of pact `k` ended early, and not at its pledge: at the budget. */
  predicate CutByBudget(s: Snapshot, pacts: seq<Pact>, cuts: seq<nat>, k: nat)
    requires |cuts| == |pacts| && k < |pacts|
  {
    var list := ListOf(s, pacts[k].buddy);
    cuts[k] < |list| && !OverPledge(s, pacts[k], list, cuts[k])
  }

  predicate AnyCutByBudget(s: Snapshot, pacts: seq<Pact>, cuts: seq<nat>)
    requires |cuts| == |pacts|
  {
    exists k :: 0 <= k < |pacts| && CutByBudget(s, pacts, cuts, k)
  }

  /** Pact `k` leaves something for a later plan: the rest of its list, or an entry
      that waits. */
  predicate Leaves(s: Snapshot, pacts: seq<Pact>, cuts: seq<nat>, k: nat)
    requires |cuts| == |pacts| && k < |pacts|
  {
    var list := ListOf(s, pacts[k].buddy);
    cuts[k] < |list| || AnyWaits(s, pacts[k].buddy, list)
  }

  predicate AnyLeaves(s: Snapshot, pacts: seq<Pact>, cuts: seq<nat>)
    requires |cuts| == |pacts|
  {
    exists k :: 0 <= k < |pacts| && Leaves(s, pacts, cuts, k)
  }

  /** Every pact's walk ends where its own pledge, or the budget after the pacts
      before it, first stops it. */
  ghost predicate Cuts(s: Snapshot, budget: u64, pacts: seq<Pact>, cuts: seq<nat>) {
    && |cuts| == |pacts|
    && forall k :: 0 <= k < |pacts| ==>
         EndsAt(s, budget, AnyCutByBudget(s, pacts[..k], cuts[..k]), PlannedAll(s, pacts[..k], cuts[..k]),
                pacts[k], ListOf(s, pacts[k].buddy), cuts[k])
  }

  ghost predicate WalkIs(s: Snapshot, pacts: seq<Pact>, cuts: seq<nat>, w: Walk)
    requires |cuts| == |pacts|
  {
    && w.adds == PlannedAll(s, pacts, cuts)
    && w.reserved == Reserved(s, w.adds)
    && (w.full <==> AnyCutByBudget(s, pacts, cuts))
    && (w.catchingUp <==> AnyLeaves(s, pacts, cuts))
  }

  lemma {:induction false} ClaimSumIsMod(fs: seq<Inflight>)
    ensures ClaimSum(fs) == Mod64(Claims(fs))
  {
    if fs != [] {
      ClaimSumIsMod(fs[..|fs| - 1]);
      WrapIsMod(Claims(fs[..|fs| - 1]), fs[|fs| - 1].claimed);
    }
  }

  lemma ChargedIs(s: Snapshot, buddy: string)
    ensures Charged(s, buddy) == Charge(s, buddy, [])
  {
    var mine := Claims(ClaimsOf(s.inflight, buddy));
    ClaimSumIsMod(ClaimsOf(s.inflight, buddy));
    WrapIsMod(mine, s.bytesFor(buddy));
    hide WrapAdd, Mod64;
    WrapCommutes(s.bytesFor(buddy), Mod64(mine));
  }

  lemma WrapCommutes(a: u64, b: u64)
    ensures WrapAdd(a, b) == WrapAdd(b, a)
  {
  }

  lemma EnterIsAt(s: Snapshot, pact: Pact, entries: seq<Entry>, w: Walk)
    requires w.reserved == Reserved(s, w.adds)
    ensures At(s, pact, entries, w, 0, Enter(s, pact, w))
  {
    ChargedIs(s, pact.buddy);
    assert w.adds + [] == w.adds;
  }

  /** One pact more leaves the earlier ones as they were. */
  lemma OneMore(s: Snapshot, pacts: seq<Pact>, cuts: seq<nat>, pact: Pact, n: nat)
    requires |cuts| == |pacts| && n <= |ListOf(s, pact.buddy)|
    ensures var pacts', cuts' := pacts + [pact], cuts + [n];
            var list := ListOf(s, pact.buddy);
            && PlannedAll(s, pacts', cuts') == PlannedAll(s, pacts, cuts) + Planned(s, pact.buddy, list[..n])
            && (AnyCutByBudget(s, pacts', cuts')
                <==> AnyCutByBudget(s, pacts, cuts) || (n < |list| && !OverPledge(s, pact, list, n)))
            && (AnyLeaves(s, pacts', cuts')
                <==> AnyLeaves(s, pacts, cuts) || n < |list| || AnyWaits(s, pact.buddy, list))
  {
    hide *;
    PlannedMore(s, pacts, cuts, pact, n);
    CutMore(s, pacts, cuts, pact, n);
    LeavesMore(s, pacts, cuts, pact, n);
  }

  lemma PlannedMore(s: Snapshot, pacts: seq<Pact>, cuts: seq<nat>, pact: Pact, n: nat)
    requires |cuts| == |pacts| && n <= |ListOf(s, pact.buddy)|
    ensures PlannedAll(s, pacts + [pact], cuts + [n])
         == PlannedAll(s, pacts, cuts) + Planned(s, pact.buddy, ListOf(s, pact.buddy)[..n])
  {
    var m := |pacts|;
    assert (pacts + [pact])[..m] == pacts && (cuts + [n])[..m] == cuts;
    hide Planned, ListOf;
  }

  lemma CutMore(s: Snapshot, pacts: seq<Pact>, cuts: seq<nat>, pact: Pact, n: nat)
    requires |cuts| == |pacts|
    ensures var list := ListOf(s, pact.buddy);
            AnyCutByBudget(s, pacts + [pact], cuts + [n])
            <==> AnyCutByBudget(s, pacts, cuts) || (n < |list| && !OverPledge(s, pact, list, n))
  {
    hide OverPledge, ListOf;
    var pacts', cuts', m := pacts + [pact], cuts + [n], |pacts|;
    forall k | 0 <= k < m ensures CutByBudget(s, pacts', cuts', k) == CutByBudget(s, pacts, cuts, k) {
      assert pacts'[k] == pacts[k] && cuts'[k] == cuts[k];
    }
    var last := CutByBudget(s, pacts', cuts', m);
    hide CutByBudget;
    if AnyCutByBudget(s, pacts, cuts) {
      var k :| 0 <= k < m && CutByBudget(s, pacts, cuts, k);
      assert CutByBudget(s, pacts', cuts', k);
    }
  }

  lemma LeavesMore(s: Snapshot, pacts: seq<Pact>, cuts: seq<nat>, pact: Pact, n: nat)
    requires |cuts| == |pacts|
    ensures var list := ListOf(s, pact.buddy);
            AnyLeaves(s, pacts + [pact], cuts + [n])
            <==> AnyLeaves(s, pacts, cuts) || n < |list| || AnyWaits(s, pact.buddy, list)
  {
    hide AnyWaits, ListOf;
    var pacts', cuts', m := pacts + [pact], cuts + [n], |pacts|;
    forall k | 0 <= k < m ensures Leaves(s, pacts', cuts', k) == Leaves(s, pacts, cuts, k) {
      assert pacts'[k] == pacts[k] && cuts'[k] == cuts[k];
    }
    var last := Leaves(s, pacts', cuts', m);
    hide Leaves;
    if AnyLeaves(s, pacts, cuts) {
      var k :| 0 <= k < m && Leaves(s, pacts, cuts, k);
      assert Leaves(s, pacts', cuts', k);
    }
  }

  lemma CutsAppend(s: Snapshot, budget: u64, pacts: seq<Pact>, cuts: seq<nat>, pact: Pact, n: nat)
    requires Cuts(s, budget, pacts, cuts)
    requires EndsAt(s, budget, AnyCutByBudget(s, pacts, cuts), PlannedAll(s, pacts, cuts), pact,
                    ListOf(s, pact.buddy), n)
    ensures Cuts(s, budget, pacts + [pact], cuts + [n])
  {
    var pacts', cuts' := pacts + [pact], cuts + [n];
    hide EndsAt, AnyCutByBudget, PlannedAll, ListOf;
    forall k | 0 <= k < |pacts'|
      ensures EndsAt(s, budget, AnyCutByBudget(s, pacts'[..k], cuts'[..k]), PlannedAll(s, pacts'[..k], cuts'[..k]),
                     pacts'[k], ListOf(s, pacts'[k].buddy), cuts'[k])
    {
      assert pacts'[..k] == pacts[..k] && cuts'[..k] == cuts[..k];
      if k == |pacts| {
        assert pacts[..k] == pacts && cuts[..k] == cuts;
      }
    }
  }

  /** One pact's walk, from wherever the planner stands. */
  lemma PactIs(s: Snapshot, budget: u64, pact: Pact, w: Walk) returns (n: nat)
    requires w.reserved == Reserved(s, w.adds)
    ensures var list, end := ListOf(s, pact.buddy), WalkPact(s, budget, pact, w);
            && EndsAt(s, budget, w.full, w.adds, pact, list, n)
            && end.adds == w.adds + Planned(s, pact.buddy, list[..n])
            && end.reserved == Reserved(s, end.adds)
            && (end.full <==> w.full || (n < |list| && !OverPledge(s, pact, list, n)))
            && (end.catchingUp <==> w.catchingUp || n < |list| || AnyWaits(s, pact.buddy, list))
  {
    hide WalkEntries, Stops, OverPledge, Reserved, Waits, Enter;
    n := 0;
    match s.backupSet(pact.buddy) {
      case None =>
        assert w.adds + [] == w.adds;
      case Some(entries) =>
        EnterIsAt(s, pact, entries, w);
        n := WalkFrom(s, budget, pact, entries, w, 0, Enter(s, pact, w));
        assert entries[0..] == entries;
        assert n == |entries| ==> entries[..n] == entries;
    }
  }

  lemma {:induction false} PactsFrom(s: Snapshot, budget: u64, pacts: seq<Pact>, k: nat, cuts: seq<nat>, w: Walk)
    returns (all: seq<nat>)
    requires k <= |pacts| && Cuts(s, budget, pacts[..k], cuts) && WalkIs(s, pacts[..k], cuts, w)
    ensures Cuts(s, budget, pacts, all) && WalkIs(s, pacts, all, WalkPacts(s, budget, pacts[k..], w))
    decreases |pacts| - k
  {
    if k == |pacts| {
      assert pacts[..k] == pacts;
      all := cuts;
    } else {
      var pact, next := pacts[k], WalkPact(s, budget, pacts[k], w);
      DropOne(pacts, k);
      assert WalkPacts(s, budget, pacts[k..], w) == WalkPacts(s, budget, pacts[k + 1..], next);
      hide WalkPacts, WalkPact, Cuts, EndsAt, PlannedAll, AnyCutByBudget, AnyLeaves, Reserved, Planned, OverPledge,
           AnyWaits, ListOf;
      var n := PactIs(s, budget, pact, w);
      EndsInside(s, budget, w.full, w.adds, pact, ListOf(s, pact.buddy), n);
      CutsAppend(s, budget, pacts[..k], cuts, pact, n);
      OneMore(s, pacts[..k], cuts, pact, n);
      assert pacts[..k + 1] == pacts[..k] + [pact];
      CutsLength(s, budget, pacts[..k], cuts);
      all := PactsFrom(s, budget, pacts, k + 1, cuts + [n], next);
    }
  }

  lemma EndsInside(s: Snapshot, budget: u64, full: bool, before: seq<Addition>, pact: Pact, entries: seq<Entry>, n: nat)
    requires EndsAt(s, budget, full, before, pact, entries, n)
    ensures n <= |entries|
  {
  }

  lemma CutsLength(s: Snapshot, budget: u64, pacts: seq<Pact>, cuts: seq<nat>)
    requires Cuts(s, budget, pacts, cuts)
    ensures |cuts| == |pacts|
  {
  }

  /** The whole walk, for every snapshot, budget and list of pledges: each active
      pact's list is passed up to the first entry that exceeds the pledge, or that
      would have to be fetched when the budget is full or too small; every passed
      entry that is due comes to its addition, in list order, and nothing else is
      added; and the plan reports catching up exactly when something is left. */
  lemma WalkedIs(s: Snapshot, budget: u64, pledges: seq<Pact>) returns (cuts: seq<nat>)
    ensures var pacts := Active(pledges, s.pledgers);
            Cuts(s, budget, pacts, cuts) && WalkIs(s, pacts, cuts, Walked(s, budget, pledges))
  {
    var pacts := Active(pledges, s.pledgers);
    StartIs(s, budget, pacts);
    hide *;
    cuts := PactsFrom(s, budget, pacts, 0, [], Start(s));
    WalkedFrom(s, budget, pledges);
  }

  lemma StartIs(s: Snapshot, budget: u64, pacts: seq<Pact>)
    ensures Cuts(s, budget, pacts[..0], []) && WalkIs(s, pacts[..0], [], Start(s))
  {
    ClaimSumIsMod(s.inflight);
  }

  lemma WalkedFrom(s: Snapshot, budget: u64, pledges: seq<Pact>)
    ensures var pacts := Active(pledges, s.pledgers);
            Walked(s, budget, pledges) == WalkPacts(s, budget, pacts[0..], Start(s))
  {
    assert Active(pledges, s.pledgers)[0..] == Active(pledges, s.pledgers);
  }

  lemma {:induction false} PassedAdds(s: Snapshot, buddy: string, entries: seq<Entry>, n: nat, i: nat)
    requires i < n <= |entries|
    ensures forall a :: a in AdditionsFor(s, buddy, entries[i]) ==> a in Planned(s, buddy, entries[..n])
    decreases n
  {
    PlannedStep(s, buddy, entries, n - 1);
    hide AdditionsFor, Planned;
    if i < n - 1 {
      PassedAdds(s, buddy, entries, n - 1, i);
    }
  }

  lemma {:induction false} PactAdds(s: Snapshot, budget: u64, pacts: seq<Pact>, cuts: seq<nat>, k: nat)
    requires Cuts(s, budget, pacts, cuts) && k < |pacts|
    ensures forall a :: a in Planned(s, pacts[k].buddy, ListOf(s, pacts[k].buddy)[..cuts[k]])
              ==> a in PlannedAll(s, pacts, cuts)
    ensures cuts[k] <= |ListOf(s, pacts[k].buddy)|
    decreases |pacts|
  {
    var n := |pacts| - 1;
    hide Planned, ListOf, Stops, AnyCutByBudget;
    if k < n {
      CutsPrefix(s, budget, pacts, cuts);
      PactAdds(s, budget, pacts[..n], cuts[..n], k);
    }
  }

  lemma CutsPrefix(s: Snapshot, budget: u64, pacts: seq<Pact>, cuts: seq<nat>)
    requires Cuts(s, budget, pacts, cuts) && pacts != []
    ensures Cuts(s, budget, pacts[..|pacts| - 1], cuts[..|pacts| - 1])
  {
    var n := |pacts| - 1;
    hide EndsAt, AnyCutByBudget, PlannedAll, ListOf;
    assert forall k :: 0 <= k < n ==> pacts[..n][..k] == pacts[..k] && cuts[..n][..k] == cuts[..k];
  }

  /** So every entry an active pact lists is held, in flight, added, or absent
      everywhere and backed off; failing that it lies at or after the entry that
      stopped the pact. */
  lemma EntryDecided(s: Snapshot, budget: u64, pledges: seq<Pact>, cuts: seq<nat>, k: nat, i: nat)
    requires Cuts(s, budget, Active(pledges, s.pledgers), cuts)
    requires WalkIs(s, Active(pledges, s.pledgers), cuts, Walked(s, budget, pledges))
    requires k < |cuts| && i < |ListOf(s, Active(pledges, s.pledgers)[k].buddy)|
    ensures var buddy := Active(pledges, s.pledgers)[k].buddy;
            var e := ListOf(s, buddy)[i];
            || s.holds(buddy, e.cid)
            || InFlight(s, e.cid)
            || (exists a :: a in Walked(s, budget, pledges).adds && a.buddy == buddy && a.cid == e.cid)
            || (s.heldAnywhere(e.cid).None? && s.backoff(e.cid))
            || cuts[k] <= i
  {
    var pacts := Active(pledges, s.pledgers);
    var buddy := pacts[k].buddy;
    var list := ListOf(s, buddy);
    PactAdds(s, budget, pacts, cuts, k);
    DueIs(s, buddy, list[i]);
    hide Cuts, Walked, Active, Planned, PlannedAll, Due, InFlight, ListOf;
    if i < cuts[k] && Due(s, buddy, list[i]) && AdditionsFor(s, buddy, list[i]) != [] {
      var a := AdditionsFor(s, buddy, list[i])[0];
      PassedAdds(s, buddy, list, cuts[k], i);
      assert a in Walked(s, budget, pledges).adds;
    }
  }

  // ----- the cuts decide the plan -----

  lemma EndIsUnique(s: Snapshot, budget: u64, full: bool, before: seq<Addition>, pact: Pact, entries: seq<Entry>,
                    n: nat, n': nat)
    requires EndsAt(s, budget, full, before, pact, entries, n) && EndsAt(s, budget, full, before, pact, entries, n')
    ensures n == n'
  {
    hide Stops;
  }

  lemma CutsLast(s: Snapshot, budget: u64, pacts: seq<Pact>, cuts: seq<nat>)
    requires Cuts(s, budget, pacts, cuts) && pacts != []
    ensures |cuts| == |pacts|
    ensures var n := |pacts| - 1;
            EndsAt(s, budget, AnyCutByBudget(s, pacts[..n], cuts[..n]), PlannedAll(s, pacts[..n], cuts[..n]),
                   pacts[n], ListOf(s, pacts[n].buddy), cuts[n])
  {
    hide EndsAt, AnyCutByBudget, PlannedAll, ListOf;
  }

  /** There is one way to end every pact's walk, so the law above leaves the plan no
      freedom. */
  lemma {:induction false} CutsUnique(s: Snapshot, budget: u64, pacts: seq<Pact>, cuts: seq<nat>, cuts': seq<nat>)
    requires Cuts(s, budget, pacts, cuts) && Cuts(s, budget, pacts, cuts')
    ensures cuts == cuts'
    decreases |pacts|
  {
    CutsLength(s, budget, pacts, cuts);
    CutsLength(s, budget, pacts, cuts');
    hide *;
    if pacts != [] {
      var n := |pacts| - 1;
      CutsPrefix(s, budget, pacts, cuts);
      CutsPrefix(s, budget, pacts, cuts');
      CutsUnique(s, budget, pacts[..n], cuts[..n], cuts'[..n]);
      CutsLast(s, budget, pacts, cuts);
      CutsLast(s, budget, pacts, cuts');
      EndIsUnique(s, budget, AnyCutByBudget(s, pacts[..n], cuts[..n]), PlannedAll(s, pacts[..n], cuts[..n]),
                  pacts[n], ListOf(s, pacts[n].buddy), cuts[n], cuts'[n]);
      SameWithLast(cuts, cuts');
    }
  }

  lemma SameWithLast(a: seq<nat>, b: seq<nat>)
    requires |a| == |b| > 0 && a[..|a| - 1] == b[..|a| - 1] && a[|a| - 1] == b[|a| - 1]
    ensures a == b
  {
    assert a == a[..|a| - 1] + [a[|a| - 1]] && b == b[..|a| - 1] + [b[|a| - 1]];
  }

  // ----- active pacts -----

  /** The positions `at` from `k` on are those of pledges to owners that pledge back,
      and `pacts` are those pledges. */
  predicate ActiveAt(pledges: seq<Pact>, pledgers: set<string>, k: nat, pacts: seq<Pact>, at: seq<nat>) {
    && Increasing(at, k) && |at| == |pacts|
    && (forall i :: 0 <= i < |at| ==> at[i] < |pledges| && pacts[i] == pledges[at[i]])
    && (forall p :: k <= p < |pledges| ==> (p in at <==> pledges[p].buddy in pledgers))
  }

  lemma ActiveStep(pledges: seq<Pact>, pledgers: set<string>, k: nat, pacts: seq<Pact>, at: seq<nat>)
    requires k < |pledges| && ActiveAt(pledges, pledgers, k + 1, pacts, at)
    ensures if pledges[k].buddy in pledgers then ActiveAt(pledges, pledgers, k, [pledges[k]] + pacts, [k] + at)
            else ActiveAt(pledges, pledgers, k, pacts, at)
  {
    assert k !in at;
    forall p | k <= p < |pledges| ensures p in [k] + at <==> p == k || p in at {
    }
    IncreasingCons(k, at);
    var pacts', at' := [pledges[k]] + pacts, [k] + at;
    forall i | 0 <= i < |at'| ensures at'[i] < |pledges| && pacts'[i] == pledges[at'[i]] {
      if i > 0 {
        assert at'[i] == at[i - 1] && pacts'[i] == pacts[i - 1];
      }
    }
  }

  lemma ActiveUnfolds(pledges: seq<Pact>, pledgers: set<string>, k: nat)
    requires k < |pledges|
    ensures var rest := Active(pledges[k + 1..], pledgers);
            Active(pledges[k..], pledgers) == if pledges[k].buddy in pledgers then [pledges[k]] + rest else rest
  {
    DropOne(pledges, k);
  }

  lemma {:induction false} ActiveFrom(pledges: seq<Pact>, pledgers: set<string>, k: nat) returns (at: seq<nat>)
    requires k <= |pledges|
    ensures ActiveAt(pledges, pledgers, k, Active(pledges[k..], pledgers), at)
    decreases |pledges| - k
  {
    at := [];
    if k < |pledges| {
      hide *;
      at := ActiveFrom(pledges, pledgers, k + 1);
      ActiveUnfolds(pledges, pledgers, k);
      ActiveStep(pledges, pledgers, k, Active(pledges[k + 1..], pledgers), at);
      if pledges[k].buddy in pledgers {
        at := [k] + at;
      }
    }
  }

  /** The active pacts are the pledges to owners that pledge back, in pledge order. */
  lemma ActiveInOrder(pledges: seq<Pact>, pledgers: set<string>) returns (at: seq<nat>)
    ensures ActiveAt(pledges, pledgers, 0, Active(pledges, pledgers), at)
  {
    at := ActiveFrom(pledges, pledgers, 0);
    assert pledges[0..] == pledges;
  }

  /** A plan's fetches and attributions are together exactly what the walk added. */
  lemma {:induction false} PlanSplits(adds: seq<Addition>)
    ensures multiset(Fetches(adds)) + multiset(Attributions(adds)) == multiset(adds)
    ensures forall a :: a in Fetches(adds) ==> a.Fetch?
    ensures forall a :: a in Attributions(adds) ==> a.Attribute?
  {
    if adds != [] {
      var n := |adds| - 1;
      PlanSplits(adds[..n]);
      assert adds == adds[..n] + [adds[n]];
    }
  }
}
