/** Partition preservation: every message built from a valid one is valid, and
    every range says something about exactly its own positional bounds
    (`src-tauri/src/channel_rbsr.rs`). */
module RbsrPartition {
  import opened ReconcileKey
  import opened Rbsr
  import opened RbsrSpans

  lemma AscendingConcat(lo: Key, a: seq<Range>, b: seq<Range>)
    ensures Ascending(lo, a + b) <==> Ascending(lo, a) && Ascending(EndOf(lo, a), b)
  {
    var c := a + b;
    forall i | 0 <= i < |a| ensures LowerBound(lo, c, i) == LowerBound(lo, a, i) && c[i] == a[i] {}
    forall i | 0 <= i < |b|
      ensures LowerBound(lo, c, |a| + i) == LowerBound(EndOf(lo, a), b, i) && c[|a| + i] == b[i]
    {}
    if Ascending(lo, c) {
      forall i | 0 <= i < |a| ensures RangeOk(LowerBound(lo, a, i), a[i]) {
        assert RangeOk(LowerBound(lo, c, i), c[i]);
      }
      forall i | 0 <= i < |b| ensures RangeOk(LowerBound(EndOf(lo, a), b, i), b[i]) {
        assert RangeOk(LowerBound(lo, c, |a| + i), c[|a| + i]);
      }
    }
    if Ascending(lo, a) && Ascending(EndOf(lo, a), b) {
      forall i | 0 <= i < |c| ensures RangeOk(LowerBound(lo, c, i), c[i]) {
        if i >= |a| {
          assert RangeOk(LowerBound(EndOf(lo, a), b, i - |a|), b[i - |a|]);
        } else {
          assert RangeOk(LowerBound(lo, a, i), a[i]);
        }
      }
    }
  }

  lemma AscendingOne(lo: Key, r: Range)
    ensures Ascending(lo, [r]) <==> RangeOk(lo, r)
  {
    if Ascending(lo, [r]) {
      assert RangeOk(LowerBound(lo, [r], 0), [r][0]);
    }
  }

  lemma PushAscending(lo: Key, out: seq<Range>, upper: Key, mode: Mode)
    requires Ascending(lo, out) && RangeOk(EndOf(lo, out), Range(upper, mode))
    ensures Ascending(lo, Push(out, upper, mode))
  {
    if mode.Skip? && out != [] && out[|out| - 1].mode.Skip? {
      var init, last := out[..|out| - 1], out[|out| - 1];
      assert out == init + [last];
      AscendingConcat(lo, init, [last]);
      AscendingConcat(lo, init, [Range(upper, Skip)]);
      AscendingOne(EndOf(lo, init), last);
      AscendingOne(EndOf(lo, init), Range(upper, Skip));
      LtTrans(EndOf(lo, init), last.upper, upper);
    } else {
      AscendingConcat(lo, out, [Range(upper, mode)]);
      AscendingOne(EndOf(lo, out), Range(upper, mode));
    }
  }

  lemma {:induction false} PushAllAscending(lo: Key, out: seq<Range>, ranges: seq<Range>)
    requires Ascending(lo, out) && Ascending(EndOf(lo, out), ranges)
    ensures Ascending(lo, PushAll(out, ranges))
    ensures out != [] || ranges != [] ==> PushAll(out, ranges) != []
    decreases ranges
  {
    if ranges != [] {
      var r := ranges[0];
      assert ranges == [r] + ranges[1..];
      AscendingConcat(EndOf(lo, out), [r], ranges[1..]);
      AscendingOne(EndOf(lo, out), r);
      PushAscending(lo, out, r.upper, r.mode);
      ItemsPush(lo, out, r.upper, r.mode);
      PushAllAscending(lo, Push(out, r.upper, r.mode), ranges[1..]);
    }
  }

  lemma RespondRangeAscending(d: DigestFn, source: Log, lo: Key, range: Range)
    requires RangeOk(lo, range)
    ensures Ascending(lo, RespondRange(d, source, lo, range))
  {
    var hi, out := range.upper, RespondRange(d, source, lo, range);
    if |out| == 1 {
      if out[0].mode.Have? {
        HaveCanonical(source, lo, hi);
      }
      AscendingOne(lo, out[0]);
    } else {
      assert out == [out[0]] + [out[1]];
      AscendingConcat(lo, [out[0]], [out[1]]);
      AscendingOne(lo, out[0]);
      AscendingOne(out[0].upper, out[1]);
    }
  }

  /** `keys_in_range` emits keys that a receiver accepts as canonical. */
  lemma HaveCanonical(source: Log, lo: Key, hi: Key)
    ensures CanonicalHave(KeysInRange(source, lo, hi), lo, hi)
  {
    var s := Slice(source, lo, hi);
    SliceSorted(source, lo, hi);
    forall i | 0 <= i < |s| ensures InRange(s[i].key, lo, hi) {
      SliceMember(source, lo, hi, s[i]);
    }
  }

  lemma {:induction false} RespondRangesAscending(d: DigestFn, source: Log, lo: Key, ranges: seq<Range>)
    requires Ascending(lo, ranges)
    ensures Ascending(lo, RespondRanges(d, source, lo, ranges))
    ensures EndOf(lo, RespondRanges(d, source, lo, ranges)) == EndOf(lo, ranges)
    ensures ranges != [] ==> RespondRanges(d, source, lo, ranges) != []
    decreases ranges
  {
    hide Ascending, RangeOk, RespondRange;
    if ranges == [] {
      AscendingNone(lo);
    } else {
      var r := ranges[0];
      AscendingCons(lo, ranges);
      RespondRangeAscending(d, source, lo, r);
      RespondRangeEnds(d, source, lo, r);
      RespondRangesAscending(d, source, r.upper, ranges[1..]);
      AscendingConcat(lo, RespondRange(d, source, lo, r), RespondRanges(d, source, r.upper, ranges[1..]));
    }
  }

  lemma AscendingNone(lo: Key)
    ensures Ascending(lo, [])
  {
  }

  lemma AscendingCons(lo: Key, ranges: seq<Range>)
    requires ranges != []
    ensures Ascending(lo, ranges) <==> RangeOk(lo, ranges[0]) && Ascending(ranges[0].upper, ranges[1..])
  {
    hide Ascending, RangeOk;
    assert ranges == [ranges[0]] + ranges[1..];
    AscendingConcat(lo, [ranges[0]], ranges[1..]);
    AscendingOne(lo, ranges[0]);
  }

  lemma RespondRangeEnds(d: DigestFn, source: Log, lo: Key, range: Range)
    ensures RespondRange(d, source, lo, range) != []
    ensures EndOf(lo, RespondRange(d, source, lo, range)) == range.upper
  {
  }

  lemma NextRangeOk(d: DigestFn, source: Log, lo: Key, range: Range)
    requires RangeOk(lo, range)
    ensures RangeOk(lo, NextRange(d, source, lo, range)) && NextRange(d, source, lo, range).upper == range.upper
  {
  }

  lemma {:induction false} NextRangesAscending(d: DigestFn, source: Log, lo: Key, ranges: seq<Range>)
    requires Ascending(lo, ranges)
    ensures Ascending(lo, NextRanges(d, source, lo, ranges))
    ensures EndOf(lo, NextRanges(d, source, lo, ranges)) == EndOf(lo, ranges)
    ensures |NextRanges(d, source, lo, ranges)| == |ranges|
    decreases ranges
  {
    hide Ascending, RangeOk, NextRange;
    if ranges == [] {
      AscendingNone(lo);
    } else {
      var r := ranges[0];
      AscendingCons(lo, ranges);
      NextRangeOk(d, source, lo, r);
      AscendingOne(lo, NextRange(d, source, lo, r));
      NextRangesAscending(d, source, r.upper, ranges[1..]);
      AscendingConcat(lo, [NextRange(d, source, lo, r)], NextRanges(d, source, r.upper, ranges[1..]));
    }
  }

  lemma InitialRequestValid(d: DigestFn, source: Log)
    ensures ValidPartition(InitialRequest(d, source))
  {
    MinBelowMax();
    AscendingOne(MinKey(), InitialRequest(d, source).ranges[0]);
  }

  /** Coalescing a partition of the universe leaves a valid message. */
  lemma PushedIsValid(raw: seq<Range>)
    requires Ascending(MinKey(), raw) && raw != [] && EndOf(MinKey(), raw) == MaxKey()
    ensures ValidPartition(Message(RBSR_PROTOCOL_VERSION, PushAll([], raw)))
  {
    hide PushAll, Ascending, Items, MinKey, MaxKey;
    NothingAscends(MinKey());
    PushAllAscending(MinKey(), [], raw);
    ItemsPushAll(MinKey(), [], raw);
  }

  lemma NothingAscends(lo: Key)
    ensures Ascending(lo, []) && EndOf(lo, []) == lo
  {
  }

  lemma ValidEnds(m: Message)
    requires ValidPartition(m)
    ensures Ascending(MinKey(), m.ranges) && m.ranges != [] && EndOf(MinKey(), m.ranges) == MaxKey()
  {
    hide Ascending, MinKey, MaxKey;
  }

  /** The reply to any valid request, even one no honest requester would send, is valid. */
  lemma RespondPreservesPartition(d: DigestFn, source: Log, request: Message)
    requires ValidPartition(request)
    ensures ValidPartition(Respond(d, source, request))
  {
    hide ValidPartition, RespondRanges, PushAll, Ascending, MinKey, MaxKey;
    ValidEnds(request);
    RespondRangesAscending(d, source, MinKey(), request.ranges);
    PushedIsValid(RespondRanges(d, source, MinKey(), request.ranges));
  }

  /** The next request built from any valid reply is valid. */
  lemma NextRequestPreservesPartition(d: DigestFn, source: Log, reply: Message)
    requires ValidPartition(reply)
    ensures NextRequest(d, source, reply).Some? ==> ValidPartition(NextRequest(d, source, reply).value)
  {
    hide ValidPartition, NextRanges, PushAll, Ascending, MinKey, MaxKey;
    ValidEnds(reply);
    NextRangesAscending(d, source, MinKey(), reply.ranges);
    PushedIsValid(NextRanges(d, source, MinKey(), reply.ranges));
  }

  // ----- positional bounds -----

  /** What `source` says about `[item.lo, item.hi)` is the truth about exactly that range. */
  predicate Truthful(d: DigestFn, source: Log, item: Item) {
    match item.mode
    case Fingerprint(digest) => digest == Digest(d, source, item.lo, item.hi)
    case Have(keys) => keys == KeysInRange(source, item.lo, item.hi)
    case Skip => true
  }

  predicate AllTruthful(d: DigestFn, source: Log, items: seq<Item>) {
    forall i :: 0 <= i < |items| ==> Truthful(d, source, items[i])
  }

  lemma RespondRangeTruthful(d: DigestFn, source: Log, lo: Key, range: Range)
    ensures AllTruthful(d, source, Items(lo, RespondRange(d, source, lo, range)))
  {
    var out := RespondRange(d, source, lo, range);
    if |out| == 1 {
      ItemsOne(lo, out[0]);
    } else {
      assert out == [out[0]] + [out[1]];
      ItemsConcat(lo, [out[0]], [out[1]]);
      ItemsOne(lo, out[0]);
      ItemsOne(out[0].upper, out[1]);
    }
  }

  lemma {:induction false} RespondRangesTruthful(d: DigestFn, source: Log, lo: Key, ranges: seq<Range>)
    ensures AllTruthful(d, source, Items(lo, RespondRanges(d, source, lo, ranges)))
    decreases ranges
  {
    if ranges != [] {
      var emitted := RespondRange(d, source, lo, ranges[0]);
      RespondRangeTruthful(d, source, lo, ranges[0]);
      RespondRangesTruthful(d, source, ranges[0].upper, ranges[1..]);
      ItemsConcat(lo, emitted, RespondRanges(d, source, ranges[0].upper, ranges[1..]));
      assert EndOf(lo, emitted) == ranges[0].upper;
    }
  }

  lemma {:induction false} NextRangesTruthful(d: DigestFn, source: Log, lo: Key, ranges: seq<Range>)
    ensures AllTruthful(d, source, Items(lo, NextRanges(d, source, lo, ranges)))
    decreases ranges
  {
    if ranges != [] {
      var next := NextRange(d, source, lo, ranges[0]);
      ItemsOne(lo, next);
      NextRangesTruthful(d, source, ranges[0].upper, ranges[1..]);
      ItemsConcat(lo, [next], NextRanges(d, source, ranges[0].upper, ranges[1..]));
    }
  }

  /** Through coalescing and bisection, whatever the incoming message was: every
      range of a reply and of a next request describes its own positional range. */
  lemma MessagesTruthful(d: DigestFn, source: Log, incoming: Message)
    ensures AllTruthful(d, source, Items(MinKey(), Respond(d, source, incoming).ranges))
    ensures var next := NextRequest(d, source, incoming);
            next.Some? ==> AllTruthful(d, source, Items(MinKey(), next.value.ranges))
  {
    RespondRangesTruthful(d, source, MinKey(), incoming.ranges);
    ItemsPushAll(MinKey(), [], RespondRanges(d, source, MinKey(), incoming.ranges));
    NextRangesTruthful(d, source, MinKey(), incoming.ranges);
    ItemsPushAll(MinKey(), [], NextRanges(d, source, MinKey(), incoming.ranges));
  }
}
