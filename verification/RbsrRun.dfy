/** Whole reconciliation runs: what they deliver, in how many rounds, and at
    what cost on the wire (`src-tauri/src/channel_rbsr.rs`). */
module RbsrRun {
  import opened Prelude
  import opened ReconcileKey
  import opened Rbsr
  import opened RbsrSpans

  // ----- halving -----

  function Max(a: nat, b: nat): nat {
    if a < b then b else a
  }

  /** The most responder keys that any of the ranges holds. */
  function MaxCount(r: Log, spans: seq<Span>): nat {
    if spans == [] then 0
    else Max(RangeCount(r, spans[0].lo, spans[0].hi), MaxCount(r, spans[1..]))
  }

  lemma {:induction false} MaxCountConcat(r: Log, a: seq<Span>, b: seq<Span>)
    ensures MaxCount(r, a + b) == Max(MaxCount(r, a), MaxCount(r, b))
  {
    if a == [] {
      assert a + b == b;
    } else {
      MaxCountConcat(r, a[1..], b);
      assert (a + b)[1..] == a[1..] + b;
    }
  }

  /** The halves of a range split its keys evenly. */
  lemma HalvesCount(r: Log, span: Span)
    requires !Leaf(r, span)
    ensures var n, h := RangeCount(r, span.lo, span.hi), Halves(r, span);
            && RangeCount(r, h[0].lo, h[0].hi) == n / 2
            && RangeCount(r, h[1].lo, h[1].hi) == n - n / 2
  {
    var s := Slice(r, span.lo, span.hi);
    CutOfMember(r, Cut(r, span.lo) + |s| / 2);
    assert r[Cut(r, span.lo) + |s| / 2] == s[|s| / 2];
  }

  lemma DifferingCount(d: DigestFn, q: Log, r: Log, a: Span, b: Span)
    ensures MaxCount(r, Differing(d, q, r, [a, b]))
         <= Max(RangeCount(r, a.lo, a.hi), RangeCount(r, b.lo, b.hi))
  {
    assert [a, b][1..] == [b] && [b][1..] == [];
    assert Differing(d, q, r, [b][1..]) == [];
    MaxCountConcat(r, if Differs(d, q, r, a) then [a] else [], Differing(d, q, r, [b]));
  }

  /** A round at least halves the largest live range, and ends the run at the leaf threshold. */
  lemma {:induction false} NextHalves(d: DigestFn, q: Log, r: Log, spans: seq<Span>)
    ensures 2 * MaxCount(r, Next(d, q, r, spans)) <= MaxCount(r, spans) + 1
    ensures Next(d, q, r, spans) != [] ==> MaxCount(r, spans) > LEAF_THRESHOLD
  {
    if spans != [] {
      var span := spans[0];
      NextHalves(d, q, r, spans[1..]);
      MaxCountConcat(r, NextOf(d, q, r)(span), Next(d, q, r, spans[1..]));
      if Differs(d, q, r, span) && !Leaf(r, span) {
        HalvesCount(r, span);
        DifferingCount(d, q, r, Halves(r, span)[0], Halves(r, span)[1]);
      }
    }
  }

  // ----- runs -----

  datatype RunResult = RunResult(rounds: nat, acquired: seq<Key>)

  /** The rounds of a run and the keys it delivers, in delivery order. */
  function Run(d: DigestFn, q: Log, r: Log, spans: seq<Span>): RunResult
    decreases MaxCount(r, spans)
  {
    NextHalves(d, q, r, spans);
    var next := Next(d, q, r, spans);
    if next == [] then RunResult(1, Missing(d, q, r, spans))
    else
      var rest := Run(d, q, r, next);
      RunResult(1 + rest.rounds, Missing(d, q, r, spans) + rest.acquired)
  }

  lemma RunUnfolds(d: DigestFn, q: Log, r: Log, spans: seq<Span>)
    ensures var next := Next(d, q, r, spans);
            && (next == [] ==> Run(d, q, r, spans) == RunResult(1, Missing(d, q, r, spans)))
            && (next != [] ==>
                  Run(d, q, r, spans) == RunResult(1 + Run(d, q, r, next).rounds,
                                                   Missing(d, q, r, spans) + Run(d, q, r, next).acquired))
  {
  }

  const UNIVERSE: Span := Span(MinKey(), MaxKey())

  /** The live ranges of round `round`, counting from one. */
  function LiveInRound(d: DigestFn, q: Log, r: Log, start: seq<Span>, round: nat): seq<Span>
    requires round >= 1
  {
    if round == 1 then start else Next(d, q, r, LiveInRound(d, q, r, start, round - 1))
  }

  function CeilDiv(a: nat, b: nat): nat
    requires b > 0
  {
    (a + b - 1) / b
  }

  /** Halving `n` `k` times, rounding up each time. */
  function HalvedUp(n: nat, k: nat): nat {
    if k == 0 then n else (HalvedUp(n, k - 1) + 1) / 2
  }

  /** Repeated rounded-up halving is one rounded-up division. */
  lemma {:induction false} HalvedUpIsCeilDiv(n: nat, k: nat)
    ensures HalvedUp(n, k) == CeilDiv(n, Pow2(k))
  {
    if k > 0 {
      HalvedUpIsCeilDiv(n, k - 1);
      CeilDivHalves(n, Pow2(k - 1));
    }
  }

  lemma CeilDivBounds(n: nat, p: nat)
    requires p > 0
    ensures n <= CeilDiv(n, p) * p < n + p
  {
    var v := n + p - 1;
    assert v == (v / p) * p + v % p;
  }

  lemma CeilDivHalves(n: nat, p: nat)
    requires p > 0
    ensures (CeilDiv(n, p) + 1) / 2 == CeilDiv(n, 2 * p)
  {
    var c, h, k := CeilDiv(n, p), (CeilDiv(n, p) + 1) / 2, CeilDiv(n, 2 * p);
    CeilDivBounds(n, p);
    CeilDivBounds(n, 2 * p);
    assert k * (2 * p) == (2 * k) * p;
    if h > k {
      MulMonotone(2 * k, c - 1, p);
    } else if h < k {
      MulMonotone(c, 2 * k - 2, p);
    }
  }

  lemma {:induction false} MulMonotone(a: int, b: int, m: nat)
    requires a <= b
    ensures a * m <= b * m
  {
    if m > 0 {
      MulMonotone(a, b, m - 1);
      assert a * m == a * (m - 1) + a && b * m == b * (m - 1) + b;
    }
  }

  lemma {:induction false} LiveRangesHalveBy(d: DigestFn, q: Log, r: Log, start: seq<Span>, round: nat)
    requires round >= 1
    ensures MaxCount(r, LiveInRound(d, q, r, start, round)) <= HalvedUp(MaxCount(r, start), round - 1)
  {
    hide Next, MaxCount;
    if round > 1 {
      LiveRangesHalveBy(d, q, r, start, round - 1);
      NextHalves(d, q, r, LiveInRound(d, q, r, start, round - 1));
    }
  }

  lemma MaxCountOne(r: Log, span: Span)
    ensures MaxCount(r, [span]) == RangeCount(r, span.lo, span.hi)
  {
    assert [span][1..] == [];
    assert MaxCount(r, [span][1..]) == 0;
  }

  /** In round r every live range holds at most ceil(n / 2^(r-1)) of the
      responder's n keys. */
  lemma LiveRangesHalve(d: DigestFn, q: Log, r: Log, round: nat)
    requires round >= 1
    ensures MaxCount(r, LiveInRound(d, q, r, [UNIVERSE], round))
         <= CeilDiv(RangeCount(r, UNIVERSE.lo, UNIVERSE.hi), Pow2(round - 1))
  {
    hide *;
    LiveRangesHalveBy(d, q, r, [UNIVERSE], round);
    MaxCountOne(r, UNIVERSE);
    HalvedUpIsCeilDiv(MaxCount(r, [UNIVERSE]), round - 1);
  }

  /** `LEAF_THRESHOLD * 2^k`: what k more bisections can bring down to a leaf. */
  function Capacity(k: nat): nat {
    if k == 0 then LEAF_THRESHOLD else 2 * Capacity(k - 1)
  }

  lemma {:induction false} CapacityIsPower(k: nat)
    ensures Capacity(k) == LEAF_THRESHOLD * Pow2(k)
  {
    if k > 0 {
      CapacityIsPower(k - 1);
      assert LEAF_THRESHOLD * (2 * Pow2(k - 1)) == 2 * (LEAF_THRESHOLD * Pow2(k - 1));
    }
  }

  predicate Fits(r: Log, spans: seq<Span>, k: nat) {
    MaxCount(r, spans) <= Capacity(k)
  }

  lemma NextFits(d: DigestFn, q: Log, r: Log, spans: seq<Span>, k: nat)
    requires Fits(r, spans, k) && Next(d, q, r, spans) != []
    ensures k > 0 && Fits(r, Next(d, q, r, spans), k - 1)
  {
    NextHalves(d, q, r, spans);
  }

  lemma {:induction false} RoundsFrom(d: DigestFn, q: Log, r: Log, spans: seq<Span>, k: nat)
    requires Fits(r, spans, k)
    ensures Run(d, q, r, spans).rounds <= k + 1
    decreases k
  {
    hide *;
    RunUnfolds(d, q, r, spans);
    var next := Next(d, q, r, spans);
    if next != [] {
      NextFits(d, q, r, spans, k);
      RoundsFrom(d, q, r, next, k - 1);
    }
    RunUnfolds(d, q, r, spans);
  }

  /** A run ends within r rounds once the responder holds at most
      LEAF_THRESHOLD * 2^(r-1) keys. Nothing is assumed about collisions. */
  lemma RoundBound(d: DigestFn, q: Log, r: Log, rounds: nat)
    requires rounds >= 1
    requires RangeCount(r, MinKey(), MaxKey()) <= LEAF_THRESHOLD * Pow2(rounds - 1)
    ensures Run(d, q, r, [UNIVERSE]).rounds <= rounds
  {
    CapacityIsPower(rounds - 1);
    MaxCountOne(r, UNIVERSE);
    RoundsFrom(d, q, r, [UNIVERSE], rounds - 1);
  }

  lemma Pow2Steps(k: nat)
    ensures Pow2(k + 4) == 16 * Pow2(k)
  {
    assert Pow2(k + 2) == 4 * Pow2(k);
  }

  /** The hard cap of 32 rounds is never hit by a responder with up to 2^35 keys. */
  lemma RoundCapSuffices(d: DigestFn, q: Log, r: Log)
    requires |r| <= 0x8_0000_0000
    ensures Run(d, q, r, [UNIVERSE]).rounds <= MAX_RBSR_ROUNDS
  {
    assert Pow2(3) == 8;
    Pow2Steps(3);
    Pow2Steps(7);
    Pow2Steps(11);
    Pow2Steps(15);
    Pow2Steps(19);
    Pow2Steps(23);
    Pow2Steps(27);
    RoundBound(d, q, r, MAX_RBSR_ROUNDS);
  }

  // ----- conservation: every wanted key is delivered, pending or hidden -----

  /** A key the responder has and the requester lacks. */
  predicate Wanted(q: Log, r: Log, k: Key) {
    HasKey(r, k) && !HasKey(q, k)
  }

  function Holds(q: Log, r: Log, k: Key, span: Span): nat {
    if Wanted(q, r, k) && InRange(k, span.lo, span.hi) then 1 else 0
  }

  function Pending(q: Log, r: Log, k: Key, spans: seq<Span>): nat {
    if spans == [] then 0 else Holds(q, r, k, spans[0]) + Pending(q, r, k, spans[1..])
  }

  /** Whether `k` is wanted inside a compared range whose digests are equal. */
  function HiddenBy(d: DigestFn, q: Log, r: Log, k: Key, span: Span): nat {
    if Differs(d, q, r, span) then 0 else Holds(q, r, k, span)
  }

  /** How often one round's comparisons on `span` drop the wanted key `k`. */
  function HiddenOn(d: DigestFn, q: Log, r: Log, k: Key, span: Span): nat {
    if !Differs(d, q, r, span) then Holds(q, r, k, span)
    else if Leaf(r, span) then 0
    else HiddenBy(d, q, r, k, Halves(r, span)[0]) + HiddenBy(d, q, r, k, Halves(r, span)[1])
  }

  function HiddenIn(d: DigestFn, q: Log, r: Log, k: Key, spans: seq<Span>): nat {
    if spans == [] then 0 else HiddenOn(d, q, r, k, spans[0]) + HiddenIn(d, q, r, k, spans[1..])
  }

  /** How often a whole run drops the wanted key `k` because digests collide. */
  function Hidden(d: DigestFn, q: Log, r: Log, k: Key, spans: seq<Span>): nat
    decreases MaxCount(r, spans)
  {
    NextHalves(d, q, r, spans);
    var next := Next(d, q, r, spans);
    HiddenIn(d, q, r, k, spans) + if next == [] then 0 else Hidden(d, q, r, k, next)
  }

  lemma {:induction false} PendingConcat(q: Log, r: Log, k: Key, a: seq<Span>, b: seq<Span>)
    ensures Pending(q, r, k, a + b) == Pending(q, r, k, a) + Pending(q, r, k, b)
  {
    if a == [] {
      assert a + b == b;
    } else {
      PendingConcat(q, r, k, a[1..], b);
      assert (a + b)[1..] == a[1..] + b;
    }
  }

  lemma KeysMember(s: Log, lo: Key, hi: Key, k: Key)
    ensures k in KeysInRange(s, lo, hi) <==> HasKey(s, k) && InRange(k, lo, hi)
  {
    var slice := Slice(s, lo, hi);
    if k in KeysInRange(s, lo, hi) {
      var i :| 0 <= i < |slice| && slice[i].key == k;
      SliceMember(s, lo, hi, slice[i]);
      var j :| 0 <= j < |s| && s[j] == slice[i];
      assert s[j].key == k;
    }
    if HasKey(s, k) && InRange(k, lo, hi) {
      var j :| 0 <= j < |s| && s[j].key == k;
      SliceMember(s, lo, hi, s[j]);
      var i :| 0 <= i < |slice| && slice[i] == s[j];
      assert Keys(slice)[i] == k;
    }
  }

  predicate Distinct(ks: seq<Key>) {
    forall i, j :: 0 <= i < j < |ks| ==> ks[i] != ks[j]
  }

  lemma {:induction false} LackingOccurs(theirs: seq<Key>, mine: seq<Key>, k: Key)
    requires Distinct(theirs)
    ensures multiset(Lacking(theirs, mine))[k] == if k in theirs && k !in mine then 1 else 0
  {
    if theirs != [] {
      var first, rest := theirs[0], theirs[1..];
      assert theirs == [first] + rest && first !in rest;
      assert Lacking(theirs, mine) == (if first in mine then [] else [first]) + Lacking(rest, mine);
      hide Lacking;
      LackingOccurs(rest, mine, k);
    }
  }

  lemma SliceKeysDistinct(s: Log, lo: Key, hi: Key)
    ensures Distinct(KeysInRange(s, lo, hi))
  {
    SliceSorted(s, lo, hi);
    KeyOrder();
  }

  lemma HoldsSplits(q: Log, r: Log, k: Key, span: Span, mid: Key)
    requires Lt(span.lo, mid) && Lt(mid, span.hi)
    ensures Holds(q, r, k, span) == Holds(q, r, k, Span(span.lo, mid)) + Holds(q, r, k, Span(mid, span.hi))
  {
    KeyOrder();
  }

  lemma SpanConserves(d: DigestFn, q: Log, r: Log, k: Key, span: Span)
    ensures multiset(MissingOf(d, q, r)(span))[k] + Pending(q, r, k, NextOf(d, q, r)(span))
          + HiddenOn(d, q, r, k, span) == Holds(q, r, k, span)
  {
    if Differs(d, q, r, span) {
      if Leaf(r, span) {
        KeysMember(r, span.lo, span.hi, k);
        KeysMember(q, span.lo, span.hi, k);
        SliceKeysDistinct(r, span.lo, span.hi);
        LackingOccurs(KeysInRange(r, span.lo, span.hi), KeysInRange(q, span.lo, span.hi), k);
      } else {
        MidInside(r, span);
        var h := Halves(r, span);
        HoldsSplits(q, r, k, span, h[0].hi);
        LiveHalves(d, q, r, span);
        PendingConcat(q, r, k, if Differs(d, q, r, h[0]) then [h[0]] else [],
                      if Differs(d, q, r, h[1]) then [h[1]] else []);
        PendingOne(q, r, k, h[0]);
        PendingOne(q, r, k, h[1]);
      }
    }
  }

  lemma PendingOne(q: Log, r: Log, k: Key, span: Span)
    ensures Pending(q, r, k, [span]) == Holds(q, r, k, span)
  {
    assert [span][1..] == [];
    assert Pending(q, r, k, [span][1..]) == 0;
  }

  lemma {:induction false} RoundConserves(d: DigestFn, q: Log, r: Log, k: Key, spans: seq<Span>)
    ensures multiset(Missing(d, q, r, spans))[k] + Pending(q, r, k, Next(d, q, r, spans))
          + HiddenIn(d, q, r, k, spans) == Pending(q, r, k, spans)
  {
    if spans != [] {
      SpanConserves(d, q, r, k, spans[0]);
      RoundConserves(d, q, r, k, spans[1..]);
      PendingConcat(q, r, k, NextOf(d, q, r)(spans[0]), Next(d, q, r, spans[1..]));
    }
  }

  lemma {:induction false} RunConserves(d: DigestFn, q: Log, r: Log, k: Key, spans: seq<Span>)
    ensures multiset(Run(d, q, r, spans).acquired)[k] + Hidden(d, q, r, k, spans) == Pending(q, r, k, spans)
    decreases MaxCount(r, spans)
  {
    NextHalves(d, q, r, spans);
    RoundConserves(d, q, r, k, spans);
    var next := Next(d, q, r, spans);
    if next != [] {
      RunConserves(d, q, r, k, next);
    }
  }

  /** Without any assumption on the digest: a key is delivered once if the
      responder has it, the requester lacks it, it lies below the upper sentinel
      and no comparison of the run hid it; otherwise it is not delivered. */
  lemma DeliveredExactly(d: DigestFn, q: Log, r: Log, k: Key)
    ensures Hidden(d, q, r, k, [UNIVERSE]) <= 1
    ensures multiset(Run(d, q, r, [UNIVERSE]).acquired)[k]
         == if Wanted(q, r, k) && Lt(k, MaxKey()) && Hidden(d, q, r, k, [UNIVERSE]) == 0 then 1 else 0
  {
    RunConserves(d, q, r, k, [UNIVERSE]);
    PendingOne(q, r, k, UNIVERSE);
    MinKeyLeast(k);
  }

  // ----- exactness -----

  /** Equal digests of this range mean equal contents. */
  predicate Faithful(d: DigestFn, q: Log, r: Log, span: Span) {
    !Differs(d, q, r, span) ==> Slice(q, span.lo, span.hi) == Slice(r, span.lo, span.hi)
  }

  /** None of the ranges that the run compares has colliding digests. */
  predicate CollisionFree(d: DigestFn, q: Log, r: Log, spans: seq<Span>)
    decreases MaxCount(r, spans)
  {
    NextHalves(d, q, r, spans);
    var next := Next(d, q, r, spans);
    && (forall i :: 0 <= i < |spans| ==>
          && Faithful(d, q, r, spans[i])
          && (Differs(d, q, r, spans[i]) && !Leaf(r, spans[i]) ==>
                && Faithful(d, q, r, Halves(r, spans[i])[0])
                && Faithful(d, q, r, Halves(r, spans[i])[1])))
    && (next != [] ==> CollisionFree(d, q, r, next))
  }

  lemma FaithfulHidesNothing(d: DigestFn, q: Log, r: Log, k: Key, span: Span)
    requires Faithful(d, q, r, span) && !Differs(d, q, r, span)
    ensures Holds(q, r, k, span) == 0
  {
    KeysMember(q, span.lo, span.hi, k);
    KeysMember(r, span.lo, span.hi, k);
  }

  lemma {:induction false} NothingHiddenIn(d: DigestFn, q: Log, r: Log, k: Key, spans: seq<Span>)
    requires forall i :: 0 <= i < |spans| ==>
               && Faithful(d, q, r, spans[i])
               && (Differs(d, q, r, spans[i]) && !Leaf(r, spans[i]) ==>
                     && Faithful(d, q, r, Halves(r, spans[i])[0])
                     && Faithful(d, q, r, Halves(r, spans[i])[1]))
    ensures HiddenIn(d, q, r, k, spans) == 0
  {
    if spans != [] {
      NothingHiddenIn(d, q, r, k, spans[1..]);
      var span := spans[0];
      if !Differs(d, q, r, span) {
        FaithfulHidesNothing(d, q, r, k, span);
      } else if !Leaf(r, span) {
        var h := Halves(r, span);
        if !Differs(d, q, r, h[0]) { FaithfulHidesNothing(d, q, r, k, h[0]); }
        if !Differs(d, q, r, h[1]) { FaithfulHidesNothing(d, q, r, k, h[1]); }
      }
    }
  }

  lemma {:induction false} NothingHidden(d: DigestFn, q: Log, r: Log, k: Key, spans: seq<Span>)
    requires CollisionFree(d, q, r, spans)
    ensures Hidden(d, q, r, k, spans) == 0
    decreases MaxCount(r, spans)
  {
    NextHalves(d, q, r, spans);
    NothingHiddenIn(d, q, r, k, spans);
    if Next(d, q, r, spans) != [] {
      NothingHidden(d, q, r, k, Next(d, q, r, spans));
    }
  }

  /** Reconciliation is exact: with no colliding comparison, the run delivers
      exactly the responder's keys that the requester lacks, each once, and it
      does so if and only if no such key reaches the upper sentinel. */
  lemma ReconciliationExact(d: DigestFn, q: Log, r: Log)
    requires CollisionFree(d, q, r, [UNIVERSE])
    ensures (forall k :: multiset(Run(d, q, r, [UNIVERSE]).acquired)[k] == if Wanted(q, r, k) then 1 else 0)
       <==> (forall k :: Wanted(q, r, k) ==> Lt(k, MaxKey()))
    ensures forall k :: multiset(Run(d, q, r, [UNIVERSE]).acquired)[k]
                     == if Wanted(q, r, k) && Lt(k, MaxKey()) then 1 else 0
  {
    forall k ensures multiset(Run(d, q, r, [UNIVERSE]).acquired)[k]
                  == if Wanted(q, r, k) && Lt(k, MaxKey()) then 1 else 0
    {
      DeliveredExactly(d, q, r, k);
      NothingHidden(d, q, r, k, [UNIVERSE]);
    }
  }

  /** So a run is exact whenever no clock of the responder's log is at its largest. */
  lemma OrdinaryKeysDelivered(d: DigestFn, q: Log, r: Log)
    requires CollisionFree(d, q, r, [UNIVERSE])
    requires forall e :: e in r ==> e.key.wall < U64_MAX || e.key.logical < U32_MAX
    ensures forall k :: multiset(Run(d, q, r, [UNIVERSE]).acquired)[k] == if Wanted(q, r, k) then 1 else 0
  {
    ReconciliationExact(d, q, r);
    forall k | Wanted(q, r, k) ensures Lt(k, MaxKey()) {
      var i :| 0 <= i < |r| && r[i].key == k;
      assert r[i] in r;
    }
  }

  /** A key above the sentinel that is "greater than any real key": one more
      character in the device id is enough. Such a key is never delivered. */
  lemma KeyBeyondUniverse(d: DigestFn)
    ensures var beyond := Key(U64_MAX, U32_MAX, MaxDevice() + [0xF4], seq(32, _ => 0));
            var r := [Entry(beyond, seq(32, _ => 0))];
            Wanted([], r, beyond) && Run(d, [], r, [UNIVERSE]).acquired == []
  {
    var beyond := Key(U64_MAX, U32_MAX, MaxDevice() + [0xF4], seq(32, _ => 0));
    var r := [Entry(beyond, seq(32, _ => 0))];
    assert r[0].key == beyond;
    PrefixLess(MaxDevice(), [0xF4]);
    LtTotal(beyond, MaxKey());
    var acquired := Run(d, [], r, [UNIVERSE]).acquired;
    forall k ensures multiset(acquired)[k] == 0 {
      DeliveredExactly(d, [], r, k);
    }
    assert multiset(acquired) == multiset{};
    assert |multiset(acquired)| == |acquired|;
  }

  lemma {:induction false} PrefixLess(a: seq<byte>, b: seq<byte>)
    requires b != []
    ensures LexLt(a, a + b)
  {
    if a != [] {
      PrefixLess(a[1..], b);
      assert (a + b)[1..] == a[1..] + b;
    }
  }
}
