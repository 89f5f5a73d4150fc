/** What a run costs on the wire, as a function of the difference between the
    two sets (`src-tauri/src/channel_rbsr.rs`). */
module RbsrCost {
  import opened ReconcileKey
  import opened Rbsr
  import opened RbsrSpans
  import opened RbsrRun

  // ----- the difference -----

  /** How many entries of `a` are not in `other`. */
  function Strangers(a: seq<Entry>, other: seq<Entry>): nat {
    if a == [] then 0 else (if a[0] in other then 0 else 1) + Strangers(a[1..], other)
  }

  /** The size of the symmetric difference inside a range. */
  function Diff(q: Log, r: Log, span: Span): nat {
    Strangers(Slice(q, span.lo, span.hi), r) + Strangers(Slice(r, span.lo, span.hi), q)
  }

  function SumDiff(q: Log, r: Log, spans: seq<Span>): nat {
    if spans == [] then 0 else Diff(q, r, spans[0]) + SumDiff(q, r, spans[1..])
  }

  function Members(s: seq<Entry>): set<Entry> {
    set e | e in s
  }

  /** |Q \ R| + |R \ Q|. */
  function SymmetricDifference(q: Log, r: Log): nat {
    |Members(q) - Members(r)| + |Members(r) - Members(q)|
  }

  lemma {:induction false} StrangersConcat(a: seq<Entry>, b: seq<Entry>, other: seq<Entry>)
    ensures Strangers(a + b, other) == Strangers(a, other) + Strangers(b, other)
  {
    if a == [] {
      assert a + b == b;
    } else {
      StrangersConcat(a[1..], b, other);
      assert (a + b)[1..] == a[1..] + b;
    }
  }

  lemma {:induction false} NoStrangers(a: seq<Entry>, other: seq<Entry>)
    requires Strangers(a, other) == 0
    ensures forall e :: e in a ==> e in other
  {
    if a != [] {
      NoStrangers(a[1..], other);
      assert a == [a[0]] + a[1..];
    }
  }

  lemma {:induction false} StrangersCounted(a: seq<Entry>, other: seq<Entry>)
    requires Sorted(a)
    ensures Strangers(a, other) == |Members(a) - Members(other)|
  {
    if a != [] {
      SortedTail(a);
      StrangersCounted(a[1..], other);
      assert a[0] in other <==> a[0] in Members(other);
      hide Members, Sorted;
      CardStep(a[0], Members(a[1..]), Members(other));
    }
  }

  lemma SortedTail(a: seq<Entry>)
    requires Sorted(a) && a != []
    ensures Sorted(a[1..]) && a[0] !in Members(a[1..])
    ensures Members(a) == {a[0]} + Members(a[1..])
  {
    assert a == [a[0]] + a[1..];
    if i :| 1 <= i < |a| && a[i] == a[0] {
      LtTotal(a[0].key, a[i].key);
    }
  }

  lemma CardStep(e: Entry, s: set<Entry>, t: set<Entry>)
    requires e !in s
    ensures |({e} + s) - t| == |s - t| + if e in t then 0 else 1
  {
    assert ({e} + s) - t == if e in t then s - t else {e} + (s - t);
  }

  lemma SliceStrangers(s: Log, lo: Key, hi: Key, other: seq<Entry>)
    ensures Strangers(Slice(s, lo, hi), other) <= Strangers(s, other)
  {
    var a, b := Cut(s, lo), Cut(s, hi);
    var c := if b < a then a else b;
    assert s == s[..a] + (s[a..c] + s[c..]);
    StrangersConcat(s[..a], s[a..c] + s[c..], other);
    StrangersConcat(s[a..c], s[c..], other);
  }

  lemma DiffBounded(q: Log, r: Log, span: Span)
    ensures Diff(q, r, span) <= SymmetricDifference(q, r)
  {
    SliceStrangers(q, span.lo, span.hi, r);
    SliceStrangers(r, span.lo, span.hi, q);
    StrangersCounted(q, r);
    StrangersCounted(r, q);
  }

  lemma {:induction false} SumDiffConcat(q: Log, r: Log, a: seq<Span>, b: seq<Span>)
    ensures SumDiff(q, r, a + b) == SumDiff(q, r, a) + SumDiff(q, r, b)
  {
    if a == [] {
      assert a + b == b;
    } else {
      SumDiffConcat(q, r, a[1..], b);
      assert (a + b)[1..] == a[1..] + b;
    }
  }

  lemma SumDiffOne(q: Log, r: Log, span: Span)
    ensures SumDiff(q, r, [span]) == Diff(q, r, span)
  {
    assert [span][1..] == [];
    assert SumDiff(q, r, [span][1..]) == 0;
  }

  lemma DiffSplits(q: Log, r: Log, span: Span, mid: Key)
    requires Lt(span.lo, mid) && Lt(mid, span.hi)
    ensures Diff(q, r, span) == Diff(q, r, Span(span.lo, mid)) + Diff(q, r, Span(mid, span.hi))
  {
    LtTotal(span.lo, mid);
    LtTotal(mid, span.hi);
    SliceSplits(q, span.lo, mid, span.hi);
    SliceSplits(r, span.lo, mid, span.hi);
    StrangersConcat(Slice(q, span.lo, mid), Slice(q, mid, span.hi), r);
    StrangersConcat(Slice(r, span.lo, mid), Slice(r, mid, span.hi), q);
  }

  /** A range whose digests disagree contains a difference, whatever the digest. */
  lemma DiffersHasDiff(d: DigestFn, q: Log, r: Log, span: Span)
    requires Differs(d, q, r, span)
    ensures Diff(q, r, span) >= 1
  {
    var a, b := Slice(q, span.lo, span.hi), Slice(r, span.lo, span.hi);
    if Diff(q, r, span) == 0 {
      NoStrangers(a, r);
      NoStrangers(b, q);
      forall e ensures e in a <==> e in b {
        SliceMember(q, span.lo, span.hi, e);
        SliceMember(r, span.lo, span.hi, e);
      }
      SliceSorted(q, span.lo, span.hi);
      SliceSorted(r, span.lo, span.hi);
      SortedByMembers(a, b);
    }
  }

  // ----- leaf keys -----

  /** The keys that a round on `span` ships wholesale. */
  function HaveOf(d: DigestFn, q: Log, r: Log, span: Span): nat {
    if Differs(d, q, r, span) && Leaf(r, span) then RangeCount(r, span.lo, span.hi) else 0
  }

  function HaveIn(d: DigestFn, q: Log, r: Log, spans: seq<Span>): nat {
    if spans == [] then 0 else HaveOf(d, q, r, spans[0]) + HaveIn(d, q, r, spans[1..])
  }

  /** All keys shipped wholesale over a whole run. */
  function RunHave(d: DigestFn, q: Log, r: Log, spans: seq<Span>): nat
    decreases MaxCount(r, spans)
  {
    NextHalves(d, q, r, spans);
    var next := Next(d, q, r, spans);
    HaveIn(d, q, r, spans) + if next == [] then 0 else RunHave(d, q, r, next)
  }

  lemma SpanCost(d: DigestFn, q: Log, r: Log, span: Span)
    ensures var next := NextOf(d, q, r)(span);
            && SumDiff(q, r, next) <= Diff(q, r, span)
            && HaveOf(d, q, r, span) + LEAF_THRESHOLD * SumDiff(q, r, next) <= LEAF_THRESHOLD * Diff(q, r, span)
            && |next| <= SumDiff(q, r, next)
  {
    if Differs(d, q, r, span) {
      DiffersHasDiff(d, q, r, span);
      if !Leaf(r, span) {
        MidInside(r, span);
        var h := Halves(r, span);
        DiffSplits(q, r, span, h[0].hi);
        LiveHalves(d, q, r, span);
        SumDiffConcat(q, r, if Differs(d, q, r, h[0]) then [h[0]] else [],
                      if Differs(d, q, r, h[1]) then [h[1]] else []);
        SumDiffOne(q, r, h[0]);
        SumDiffOne(q, r, h[1]);
        if Differs(d, q, r, h[0]) { DiffersHasDiff(d, q, r, h[0]); }
        if Differs(d, q, r, h[1]) { DiffersHasDiff(d, q, r, h[1]); }
      }
    }
  }

  lemma {:induction false} RoundCost(d: DigestFn, q: Log, r: Log, spans: seq<Span>)
    ensures var next := Next(d, q, r, spans);
            && SumDiff(q, r, next) <= SumDiff(q, r, spans)
            && HaveIn(d, q, r, spans) + LEAF_THRESHOLD * SumDiff(q, r, next) <= LEAF_THRESHOLD * SumDiff(q, r, spans)
            && |next| <= SumDiff(q, r, next)
    ensures |Differing(d, q, r, spans)| <= SumDiff(q, r, spans)
  {
    if spans != [] {
      var span, rest := spans[0], spans[1..];
      SpanCost(d, q, r, span);
      RoundCost(d, q, r, rest);
      SumDiffConcat(q, r, NextOf(d, q, r)(span), Next(d, q, r, rest));
      if Differs(d, q, r, span) { DiffersHasDiff(d, q, r, span); }
    }
  }

  lemma {:induction false} RunCost(d: DigestFn, q: Log, r: Log, spans: seq<Span>)
    ensures RunHave(d, q, r, spans) <= LEAF_THRESHOLD * SumDiff(q, r, spans)
    decreases MaxCount(r, spans)
  {
    NextHalves(d, q, r, spans);
    RoundCost(d, q, r, spans);
    if Next(d, q, r, spans) != [] {
      RunCost(d, q, r, Next(d, q, r, spans));
    }
  }

  /** The `Have` lists of a whole run carry at most LEAF_THRESHOLD keys per
      element of the symmetric difference. */
  lemma HaveFollowsDifference(d: DigestFn, q: Log, r: Log)
    ensures RunHave(d, q, r, [UNIVERSE]) <= LEAF_THRESHOLD * SymmetricDifference(q, r)
  {
    RunCost(d, q, r, [UNIVERSE]);
    SumDiffOne(q, r, UNIVERSE);
    DiffBounded(q, r, UNIVERSE);
  }

  // ----- message lengths -----

  /** The length of a list, plus one unless the next `Skip` coalesces into it. */
  function Slots(out: seq<Range>): nat {
    |out| + if out != [] && out[|out| - 1].mode.Skip? then 0 else 1
  }

  lemma SlotsPush(out: seq<Range>, upper: Key, mode: Mode)
    ensures Slots(Push(out, upper, mode)) <= Slots(out) + if mode.Skip? then 0 else 2
    ensures !mode.Skip? && out != [] && !out[|out| - 1].mode.Skip? ==> Slots(Push(out, upper, mode)) <= Slots(out) + 1
    ensures Push(out, upper, mode) != [] && Push(out, upper, mode)[|Push(out, upper, mode)| - 1].mode == mode
  {
  }

  lemma {:induction false} SlotsByItems(lo: Key, out: seq<Range>, ranges: seq<Range>)
    ensures Slots(PushAll(out, ranges)) <= Slots(out) + 2 * |Items(lo, ranges)|
    decreases ranges
  {
    if ranges != [] {
      var r := ranges[0];
      SlotsPush(out, r.upper, r.mode);
      SlotsByItems(r.upper, Push(out, r.upper, r.mode), ranges[1..]);
    }
  }

  /** The fingerprint ranges of a request that disagree with the responder. */
  function Mismatches(d: DigestFn, source: Log, items: seq<Item>): nat {
    if items == [] then 0
    else (if items[0].mode.Fingerprint?
             && Digest(d, source, items[0].lo, items[0].hi) != items[0].mode.digest then 1 else 0)
         + Mismatches(d, source, items[1..])
  }

  /** A range is answered by one `Skip` if it agrees, and by one or two other ranges if not. */
  lemma RespondRangeShape(d: DigestFn, source: Log, lo: Key, range: Range)
    ensures var emitted, n := RespondRange(d, source, lo, range), Mismatches(d, source, Items(lo, [range]));
            && n <= 1 <= |emitted| <= 1 + n
            && (n == 0 ==> emitted[0].mode.Skip?)
            && (n == 1 ==> forall i :: 0 <= i < |emitted| ==> !emitted[i].mode.Skip?)
  {
    ItemsOne(lo, range);
    if !range.mode.Skip? {
      assert [Item(lo, range.upper, range.mode)][1..] == [];
    }
  }

  lemma SlotsRespondRange(d: DigestFn, source: Log, out: seq<Range>, lo: Key, range: Range)
    ensures Slots(PushAll(out, RespondRange(d, source, lo, range)))
         <= Slots(out) + 3 * Mismatches(d, source, Items(lo, [range]))
  {
    var emitted := RespondRange(d, source, lo, range);
    RespondRangeShape(d, source, lo, range);
    hide RespondRange, Mismatches, Items;
    assert emitted == if |emitted| == 1 then [emitted[0]] else [emitted[0], emitted[1]];
    PushOneTwo(out, emitted[0], emitted[|emitted| - 1]);
    SlotsPush(out, emitted[0].upper, emitted[0].mode);
    if |emitted| == 2 {
      SlotsPush(Push(out, emitted[0].upper, emitted[0].mode), emitted[1].upper, emitted[1].mode);
    }
  }

  lemma {:induction false} SlotsRespond(d: DigestFn, source: Log, out: seq<Range>, lo: Key, ranges: seq<Range>)
    ensures Slots(PushAll(out, RespondRanges(d, source, lo, ranges)))
         <= Slots(out) + 3 * Mismatches(d, source, Items(lo, ranges))
    decreases ranges
  {
    if ranges != [] {
      var r := ranges[0];
      var emitted := RespondRange(d, source, lo, r);
      SlotsRespondRange(d, source, out, lo, r);
      SlotsRespond(d, source, PushAll(out, emitted), r.upper, ranges[1..]);
      PushAllConcat(out, emitted, RespondRanges(d, source, r.upper, ranges[1..]));
      ItemsOne(lo, r);
      if r.mode.Skip? {
        assert Items(lo, ranges) == Items(r.upper, ranges[1..]);
      } else {
        assert Items(lo, ranges) == [Item(lo, r.upper, r.mode)] + Items(r.upper, ranges[1..]);
        assert Items(lo, ranges)[1..] == Items(r.upper, ranges[1..]);
        assert [Item(lo, r.upper, r.mode)][1..] == [];
      }
    }
  }

  lemma {:induction false} MismatchesOfLive(d: DigestFn, q: Log, r: Log, spans: seq<Span>)
    ensures Mismatches(d, r, Live(d, q, spans)) == |Differing(d, q, r, spans)|
  {
    if spans != [] {
      MismatchesOfLive(d, q, r, spans[1..]);
      assert Live(d, q, spans)[1..] == Live(d, q, spans[1..]);
    }
  }

  /** One exchange: a request about `spans` has at most 2n+1 ranges, and its reply
      at most 3D+1, with D the difference still inside the live ranges. */
  lemma ExchangeLengths(d: DigestFn, q: Log, r: Log, request: Message, spans: seq<Span>)
    requires Asks(d, q, request, spans)
    ensures |Respond(d, r, request).ranges| <= 3 * SumDiff(q, r, spans) + 1
    ensures var next := NextRequest(d, q, Respond(d, r, request));
            next.Some? ==> |next.value.ranges| <= 2 * SumDiff(q, r, Next(d, q, r, spans)) + 1
  {
    SlotsRespond(d, r, [], MinKey(), request.ranges);
    MismatchesOfLive(d, q, r, spans);
    RoundCost(d, q, r, spans);
    var reply := Respond(d, r, request);
    var raw := NextRanges(d, q, MinKey(), reply.ranges);
    SlotsByItems(MinKey(), [], raw);
    RoundRefines(d, q, r, q, request, spans);
    ItemsPushAll(MinKey(), [], raw);
  }
}
