/** The buddy-pin planner: a nested walk over active pacts and their backup sets
    under pledge slices and one shared budget (`src-tauri/src/buddy_pin_planner.rs`). */
module PinPlanner {
  import opened Prelude

  datatype Inflight = Inflight(cid: string, buddy: string, claimed: u64)

  datatype Entry = Entry(cid: string, size: u64)

  datatype Pact = Pact(buddy: string, slice: u64)

  /** The answers of the ledger, the record store and the retry table. */
  datatype Snapshot = Snapshot(
    sealedFault: bool,
    distinctBytes: u64,
    bytesFor: string -> u64,
    holds: (string, string) -> bool,
    heldAnywhere: string -> Option<u64>,
    ledgerBuddies: seq<string>,
    cidsFor: string -> seq<string>,
    backupSet: string -> Option<seq<Entry>>,
    pledgers: set<string>,
    backoff: string -> bool,
    inflight: seq<Inflight>)

  /** What a walk adds: a fetch reserves claimed bytes, an attribution records the
      actual size of bytes already stored. */
  datatype Addition =
    | Fetch(buddy: string, cid: string, bytes: u64)
    | Attribute(buddy: string, cid: string, bytes: u64)

  datatype PinPlan = PinPlan(
    fetch: seq<Addition>,
    attributeOnly: seq<Addition>,
    release: seq<(string, string)>,
    releaseBuddies: seq<string>,
    evictTo: Option<u64>,
    catchingUp: bool)

  /** Wrapping `u64` addition: what `+` and `sum` compute in a release build. */
  function WrapAdd(a: u64, b: u64): u64 {
    if a + b <= U64_MAX then a + b else a + b - U64_MAX - 1
  }

  function ClaimSum(fs: seq<Inflight>): u64 {
    if fs == [] then 0 else WrapAdd(ClaimSum(fs[..|fs| - 1]), fs[|fs| - 1].claimed)
  }

  function ClaimsOf(fs: seq<Inflight>, buddy: string): seq<Inflight> {
    if fs == [] then []
    else
      var f := fs[|fs| - 1];
      ClaimsOf(fs[..|fs| - 1], buddy) + if f.buddy == buddy then [f] else []
  }

  /** The exact sum of the claims. */
  function Claims(fs: seq<Inflight>): nat {
    if fs == [] then 0 else Claims(fs[..|fs| - 1]) + fs[|fs| - 1].claimed
  }

  predicate InFlight(s: Snapshot, cid: string) {
    exists i :: 0 <= i < |s.inflight| && s.inflight[i].cid == cid
  }

  /** Both sides pledge. */
  function Active(pledges: seq<Pact>, pledgers: set<string>): seq<Pact> {
    if pledges == [] then []
    else (if pledges[0].buddy in pledgers then [pledges[0]] else []) + Active(pledges[1..], pledgers)
  }

  predicate DistinctBuddies(pacts: seq<Pact>) {
    forall i, j :: 0 <= i < j < |pacts| ==> pacts[i].buddy != pacts[j].buddy
  }

  // ----- the walk -----

  /** The planner's mutable state: additions so far, bytes reserved against the
      budget, bytes charged to the current pact, whether the budget or the current
      pact is exhausted, and the catching-up signal. */
  datatype Walk = Walk(adds: seq<Addition>, reserved: u64, attributed: u64, full: bool, stopped: bool, catchingUp: bool)

  function Stop(w: Walk): Walk {
    w.(stopped := true, catchingUp := true)
  }

  function Add(w: Walk, a: Addition): Walk {
    var reserved := if a.Fetch? then WrapAdd(w.reserved, a.bytes) else w.reserved;
    w.(adds := w.adds + [a], reserved := reserved, attributed := WrapAdd(w.attributed, a.bytes))
  }

  function Visit(s: Snapshot, budget: u64, pact: Pact, e: Entry, w: Walk): Walk {
    if s.holds(pact.buddy, e.cid) then w
    else if InFlight(s, e.cid) then w.(catchingUp := true)
    else
      match s.heldAnywhere(e.cid)
      case Some(actual) =>
        if SatAdd(w.attributed, actual) > pact.slice then Stop(w)
        else Add(w, Attribute(pact.buddy, e.cid, actual))
      case None =>
        if SatAdd(w.attributed, e.size) > pact.slice then Stop(w)
        else if w.full || SatAdd(SatAdd(s.distinctBytes, w.reserved), e.size) > budget then Stop(w.(full := true))
        else if s.backoff(e.cid) then w.(catchingUp := true)
        else Add(w, Fetch(pact.buddy, e.cid, e.size))
  }

  function WalkEntries(s: Snapshot, budget: u64, pact: Pact, entries: seq<Entry>, w: Walk): Walk {
    if entries == [] || w.stopped then w
    else WalkEntries(s, budget, pact, entries[1..], Visit(s, budget, pact, entries[0], w))
  }

  /** The pact's starting charge. */
  function Charged(s: Snapshot, buddy: string): u64 {
    WrapAdd(s.bytesFor(buddy), ClaimSum(ClaimsOf(s.inflight, buddy)))
  }

  /** The walk as it enters a pact. */
  function Enter(s: Snapshot, pact: Pact, w: Walk): Walk {
    w.(attributed := Charged(s, pact.buddy), stopped := false)
  }

  function WalkPact(s: Snapshot, budget: u64, pact: Pact, w: Walk): Walk {
    match s.backupSet(pact.buddy)
    case None => w
    case Some(entries) =>
      WalkEntries(s, budget, pact, entries, Enter(s, pact, w))
  }

  function WalkPacts(s: Snapshot, budget: u64, pacts: seq<Pact>, w: Walk): Walk {
    if pacts == [] then w else WalkPacts(s, budget, pacts[1..], WalkPact(s, budget, pacts[0], w))
  }

  function Start(s: Snapshot): Walk {
    Walk([], ClaimSum(s.inflight), 0, false, false, false)
  }

  /** All the planner adds for these pacts. */
  function Walked(s: Snapshot, budget: u64, pledges: seq<Pact>): Walk {
    WalkPacts(s, budget, Active(pledges, s.pledgers), Start(s))
  }

  function Fetches(adds: seq<Addition>): seq<Addition> {
    if adds == [] then []
    else Fetches(adds[..|adds| - 1]) + if adds[|adds| - 1].Fetch? then [adds[|adds| - 1]] else []
  }

  function Attributions(adds: seq<Addition>): seq<Addition> {
    if adds == [] then []
    else Attributions(adds[..|adds| - 1]) + if adds[|adds| - 1].Attribute? then [adds[|adds| - 1]] else []
  }

  // ----- releases -----

  predicate Listed(s: Snapshot, buddy: string, cid: string) {
    && s.backupSet(buddy).Some?
    && exists i :: 0 <= i < |s.backupSet(buddy).value| && s.backupSet(buddy).value[i].cid == cid
  }

  predicate IsActive(s: Snapshot, pledges: seq<Pact>, buddy: string) {
    exists i :: 0 <= i < |pledges| && pledges[i].buddy == buddy && buddy in s.pledgers
  }

  // ----- the planner -----

  method ActivePacts(s: Snapshot, pledges: seq<Pact>) returns (active: seq<Pact>)
    ensures active == Active(pledges, s.pledgers)
  {
    active := [];
    for i := 0 to |pledges|
      invariant active + Active(pledges[i..], s.pledgers) == Active(pledges, s.pledgers)
    {
      DropOne(pledges, i);
      if pledges[i].buddy in s.pledgers {
        ConcatAssociates(active, [pledges[i]], Active(pledges[i + 1..], s.pledgers));
        active := active + [pledges[i]];
      } else {
        assert Active(pledges[i..], s.pledgers) == Active(pledges[i + 1..], s.pledgers);
      }
    }
  }

  method SumClaims(fs: seq<Inflight>) returns (sum: u64)
    ensures sum == ClaimSum(fs)
  {
    sum := 0;
    for i := 0 to |fs|
      invariant sum == ClaimSum(fs[..i])
    {
      assert fs[..i + 1][..i] == fs[..i];
      sum := WrapAdd(sum, fs[i].claimed);
    }
    assert fs[..|fs|] == fs;
  }

  method FilterClaims(fs: seq<Inflight>, buddy: string) returns (mine: seq<Inflight>)
    ensures mine == ClaimsOf(fs, buddy)
  {
    mine := [];
    for i := 0 to |fs|
      invariant mine == ClaimsOf(fs[..i], buddy)
    {
      assert fs[..i + 1][..i] == fs[..i];
      if fs[i].buddy == buddy {
        mine := mine + [fs[i]];
      }
    }
    assert fs[..|fs|] == fs;
  }

  lemma AddSplits(w: Walk, a: Addition)
    ensures Fetches(Add(w, a).adds) == Fetches(w.adds) + if a.Fetch? then [a] else []
    ensures Attributions(Add(w, a).adds) == Attributions(w.adds) + if a.Attribute? then [a] else []
  {
    assert (w.adds + [a])[..|w.adds|] == w.adds;
  }

  /** One pact's list, in order, until the pledge or the budget stops it. */
  method PlanPact(s: Snapshot, budget: u64, pact: Pact, entries: seq<Entry>, ghost start: Walk,
                  fetch0: seq<Addition>, attributeOnly0: seq<Addition>, reserved0: u64, full0: bool, catchingUp0: bool)
    returns (fetch: seq<Addition>, attributeOnly: seq<Addition>, reserved: u64, full: bool, catchingUp: bool)
    requires start.reserved == reserved0 && start.full == full0 && start.catchingUp == catchingUp0
    requires fetch0 == Fetches(start.adds) && attributeOnly0 == Attributions(start.adds)
    ensures var end := WalkEntries(s, budget, pact, entries, Enter(s, pact, start));
            && fetch == Fetches(end.adds) && attributeOnly == Attributions(end.adds)
            && reserved == end.reserved && full == end.full && catchingUp == end.catchingUp
  {
    fetch, attributeOnly, reserved, full, catchingUp := fetch0, attributeOnly0, reserved0, full0, catchingUp0;
    var claims := FilterClaims(s.inflight, pact.buddy);
    var mine := SumClaims(claims);
    var attributed := WrapAdd(s.bytesFor(pact.buddy), mine);
    ghost var end := start.(attributed := attributed, stopped := false);
    ghost var goal := WalkEntries(s, budget, pact, entries, end);
    hide Fetches, Attributions;
    for i := 0 to |entries|
      invariant end == Walk(end.adds, reserved, attributed, full, false, catchingUp)
      invariant fetch == Fetches(end.adds) && attributeOnly == Attributions(end.adds)
      invariant WalkEntries(s, budget, pact, entries[i..], end) == goal
    {
      DropOne(entries, i);
      var e := entries[i];
      ghost var next := Visit(s, budget, pact, e, end);
      assert WalkEntries(s, budget, pact, entries[i + 1..], next) == goal;
      if s.holds(pact.buddy, e.cid) {
        continue;
      }
      var running := IsInFlight(s, e.cid);
      if running {
        catchingUp := true;
        end := next;
        continue;
      }
      var actual := s.heldAnywhere(e.cid);
      if actual.Some? {
        if SatAdd(attributed, actual.value) > pact.slice {
          catchingUp := true;
          end := next;
          return;
        }
        AddSplits(end, Attribute(pact.buddy, e.cid, actual.value));
        attributeOnly := attributeOnly + [Attribute(pact.buddy, e.cid, actual.value)];
        attributed := WrapAdd(attributed, actual.value);
        end := next;
        continue;
      }
      if SatAdd(attributed, e.size) > pact.slice {
        catchingUp := true;
        end := next;
        return;
      }
      if full || SatAdd(SatAdd(s.distinctBytes, reserved), e.size) > budget {
        full, catchingUp := true, true;
        end := next;
        return;
      }
      if s.backoff(e.cid) {
        catchingUp := true;
        end := next;
        continue;
      }
      AddSplits(end, Fetch(pact.buddy, e.cid, e.size));
      reserved := WrapAdd(reserved, e.size);
      attributed := WrapAdd(attributed, e.size);
      fetch := fetch + [Fetch(pact.buddy, e.cid, e.size)];
      end := next;
    }
  }

  method IsInFlight(s: Snapshot, cid: string) returns (yes: bool)
    ensures yes == InFlight(s, cid)
  {
    yes := false;
    for i := 0 to |s.inflight|
      invariant yes == exists j :: 0 <= j < i && s.inflight[j].cid == cid
    {
      yes := yes || s.inflight[i].cid == cid;
    }
  }

  lemma {:induction false} ActiveMember(pledges: seq<Pact>, pledgers: set<string>, p: Pact)
    ensures p in Active(pledges, pledgers) <==> p in pledges && p.buddy in pledgers
  {
    if pledges != [] {
      ActiveMember(pledges[1..], pledgers, p);
      assert pledges == [pledges[0]] + pledges[1..];
    }
  }

  lemma ActiveBuddies(s: Snapshot, pledges: seq<Pact>, active: seq<Pact>, buddies: set<string>)
    requires active == Active(pledges, s.pledgers) && buddies == set p | p in active :: p.buddy
    ensures forall b :: b in buddies <==> IsActive(s, pledges, b)
  {
    forall b ensures b in buddies <==> IsActive(s, pledges, b) {
      if b in buddies {
        var p :| p in active && p.buddy == b;
        ActiveMember(pledges, s.pledgers, p);
      }
      if i :| 0 <= i < |pledges| && pledges[i].buddy == b && b in s.pledgers {
        ActiveMember(pledges, s.pledgers, pledges[i]);
      }
    }
  }

  method PlanReleases(s: Snapshot, pledges: seq<Pact>, active: seq<Pact>)
    returns (releaseBuddies: seq<string>, release: seq<(string, string)>)
    requires active == Active(pledges, s.pledgers)
    ensures forall b :: b in releaseBuddies <==> b in s.ledgerBuddies && !IsActive(s, pledges, b)
    ensures forall b, c :: (b, c) in release <==>
              b in s.ledgerBuddies && IsActive(s, pledges, b) && c in s.cidsFor(b) && !Listed(s, b, c)
  {
    var activeSet := set p | p in active :: p.buddy;
    ActiveBuddies(s, pledges, active, activeSet);
    hide IsActive, Listed;
    releaseBuddies, release := [], [];
    for i := 0 to |s.ledgerBuddies|
      invariant forall b :: b in releaseBuddies <==> b in s.ledgerBuddies[..i] && b !in activeSet
      invariant forall b, c :: (b, c) in release <==>
                  b in s.ledgerBuddies[..i] && b in activeSet && c in s.cidsFor(b) && !Listed(s, b, c)
    {
      var buddy := s.ledgerBuddies[i];
      assert s.ledgerBuddies[..i + 1] == s.ledgerBuddies[..i] + [buddy];
      if buddy !in activeSet {
        releaseBuddies := releaseBuddies + [buddy];
        continue;
      }
      var dropped := Unlisted(s, buddy);
      release := release + dropped;
    }
    assert s.ledgerBuddies[..|s.ledgerBuddies|] == s.ledgerBuddies;
  }

  method Unlisted(s: Snapshot, buddy: string) returns (dropped: seq<(string, string)>)
    ensures forall b, c :: (b, c) in dropped <==> b == buddy && c in s.cidsFor(b) && !Listed(s, b, c)
  {
    var listed := s.backupSet(buddy);
    var desired := if listed.Some? then set i | 0 <= i < |listed.value| :: listed.value[i].cid else {};
    assert forall c :: c in desired <==> Listed(s, buddy, c);
    hide Listed;
    var cids := s.cidsFor(buddy);
    dropped := [];
    for i := 0 to |cids|
      invariant forall b, c :: (b, c) in dropped <==> b == buddy && c in cids[..i] && c !in desired
    {
      assert cids[..i + 1] == cids[..i] + [cids[i]];
      if cids[i] !in desired {
        dropped := dropped + [(buddy, cids[i])];
      }
    }
    assert cids[..|cids|] == cids;
  }

  /** The planner's own loops compute the walk, and release exactly the ledger's
      pairs that no active pact lists any more. */
  method Plan(s: Snapshot, pledges: seq<Pact>, budget: u64) returns (plan: PinPlan)
    ensures s.sealedFault ==> plan == PinPlan([], [], [], [], None, false)
    ensures !s.sealedFault ==>
              var w := Walked(s, budget, pledges);
              && plan.fetch == Fetches(w.adds) && plan.attributeOnly == Attributions(w.adds)
              && plan.catchingUp == w.catchingUp
              && plan.evictTo == if s.distinctBytes > budget then Some(budget) else None
    ensures !s.sealedFault ==> forall b ::
              b in plan.releaseBuddies <==> b in s.ledgerBuddies && !IsActive(s, pledges, b)
    ensures !s.sealedFault ==> forall b, c :: (b, c) in plan.release <==>
              b in s.ledgerBuddies && IsActive(s, pledges, b) && c in s.cidsFor(b) && !Listed(s, b, c)
  {
    if s.sealedFault {
      return PinPlan([], [], [], [], None, false);
    }
    var active := ActivePacts(s, pledges);
    var reserved := SumClaims(s.inflight);
    var evictTo := if s.distinctBytes > budget then Some(budget) else None;
    var full, catchingUp := false, false;
    var fetch: seq<Addition>, attributeOnly: seq<Addition> := [], [];
    ghost var w := Start(s);
    hide WalkEntries, Fetches, Attributions, IsActive, Listed;
    for i := 0 to |active|
      invariant w.reserved == reserved && w.full == full && w.catchingUp == catchingUp
      invariant fetch == Fetches(w.adds) && attributeOnly == Attributions(w.adds)
      invariant WalkPacts(s, budget, active[i..], w) == WalkPacts(s, budget, active, Start(s))
    {
      DropOne(active, i);
      var pact := active[i];
      var entries := s.backupSet(pact.buddy);
      if entries.None? {
        continue;
      }
      fetch, attributeOnly, reserved, full, catchingUp :=
        PlanPact(s, budget, pact, entries.value, w, fetch, attributeOnly, reserved, full, catchingUp);
      w := WalkPact(s, budget, pact, w);
    }
    assert active[|active|..] == [];
    var releaseBuddies, release := PlanReleases(s, pledges, active);
    return PinPlan(fetch, attributeOnly, release, releaseBuddies, evictTo, catchingUp);
  }
}
