/** One reconciliation round seen as a step on the list of ranges still in
    disagreement, and the refinement that connects the messages to it. */
module RbsrSpans {
  import opened Prelude
  import opened ReconcileKey
  import opened Rbsr

  datatype Span = Span(lo: Key, hi: Key)

  /** A range of a message with its positional lower bound. */
  datatype Item = Item(lo: Key, hi: Key, mode: Mode)

  function HeadItem(lo: Key, range: Range): seq<Item> {
    if range.mode.Skip? then [] else [Item(lo, range.upper, range.mode)]
  }

  /** The ranges of a message that still say something, with their bounds. */
  function Items(lo: Key, ranges: seq<Range>): seq<Item>
    decreases ranges
  {
    if ranges == [] then [] else HeadItem(lo, ranges[0]) + Items(ranges[0].upper, ranges[1..])
  }

  function EndOf(lo: Key, ranges: seq<Range>): Key {
    LowerBound(lo, ranges, |ranges|)
  }

  lemma ItemsStep(lo: Key, ranges: seq<Range>)
    requires ranges != []
    ensures Items(lo, ranges) == HeadItem(lo, ranges[0]) + Items(ranges[0].upper, ranges[1..])
    ensures EndOf(lo, ranges) == EndOf(ranges[0].upper, ranges[1..])
  {
  }

  lemma {:induction false} ItemsConcat(lo: Key, a: seq<Range>, b: seq<Range>)
    ensures Items(lo, a + b) == Items(lo, a) + Items(EndOf(lo, a), b)
    decreases a
  {
    if a == [] {
      assert a + b == b;
    } else {
      hide *;
      ItemsConcat(a[0].upper, a[1..], b);
      ConcatFirst(a, b);
      ItemsStep(lo, a + b);
      ItemsStep(lo, a);
      ConcatAssociates(HeadItem(lo, a[0]), Items(a[0].upper, a[1..]), Items(EndOf(lo, a), b));
    }
  }

  lemma ItemsOne(lo: Key, r: Range)
    ensures Items(lo, [r]) == if r.mode.Skip? then [] else [Item(lo, r.upper, r.mode)]
  {
    assert [r][1..] == [];
    assert Items(r.upper, [r][1..]) == [];
  }

  lemma ItemsPush(lo: Key, out: seq<Range>, upper: Key, mode: Mode)
    ensures Items(lo, Push(out, upper, mode)) == Items(lo, out) + Items(EndOf(lo, out), [Range(upper, mode)])
    ensures EndOf(lo, Push(out, upper, mode)) == upper
  {
    ItemsOne(EndOf(lo, out), Range(upper, mode));
    if mode.Skip? && out != [] && out[|out| - 1].mode.Skip? {
      var init := out[..|out| - 1];
      ItemsConcat(lo, init, [out[|out| - 1]]);
      ItemsConcat(lo, init, [Range(upper, Skip)]);
      assert out == init + [out[|out| - 1]];
      ItemsOne(EndOf(lo, init), out[|out| - 1]);
      ItemsOne(EndOf(lo, init), Range(upper, Skip));
    } else {
      ItemsConcat(lo, out, [Range(upper, mode)]);
    }
  }

  /** Coalescing changes neither what the ranges say nor where each one starts. */
  lemma {:induction false} ItemsPushAll(lo: Key, out: seq<Range>, ranges: seq<Range>)
    ensures Items(lo, PushAll(out, ranges)) == Items(lo, out) + Items(EndOf(lo, out), ranges)
    ensures EndOf(lo, PushAll(out, ranges)) == EndOf(EndOf(lo, out), ranges)
    decreases ranges
  {
    if ranges != [] {
      var r := ranges[0];
      PushAllStep(out, ranges);
      hide *;
      ItemsPush(lo, out, r.upper, r.mode);
      ItemsPushAll(lo, Push(out, r.upper, r.mode), ranges[1..]);
      ItemsCons(EndOf(lo, out), ranges);
      ItemsStep(EndOf(lo, out), ranges);
      assert Range(r.upper, r.mode) == r;
      ConcatAssociates(Items(lo, out), Items(EndOf(lo, out), [r]), Items(r.upper, ranges[1..]));
    }
  }

  lemma PushAllStep(out: seq<Range>, ranges: seq<Range>)
    requires ranges != []
    ensures PushAll(out, ranges) == PushAll(Push(out, ranges[0].upper, ranges[0].mode), ranges[1..])
  {
  }

  lemma ItemsCons(lo: Key, ranges: seq<Range>)
    requires ranges != []
    ensures Items(lo, ranges) == Items(lo, [ranges[0]]) + Items(ranges[0].upper, ranges[1..])
  {
    ItemsOne(lo, ranges[0]);
  }

  // ----- one half-round on items -----

  function AsRange(item: Item): Range {
    Range(item.hi, item.mode)
  }

  function RespondItem(d: DigestFn, source: seq<Entry>): Item -> seq<Item> {
    (item: Item) => Items(item.lo, RespondRange(d, source, item.lo, AsRange(item)))
  }

  function NextItem(d: DigestFn, source: seq<Entry>): Item -> seq<Item> {
    (item: Item) => Items(item.lo, [NextRange(d, source, item.lo, AsRange(item))])
  }

  function MissingItem(source: seq<Entry>): Item -> seq<Key> {
    (item: Item) => MissingIn(source, item.lo, AsRange(item))
  }

  lemma {:induction false} RespondOnItems(d: DigestFn, source: seq<Entry>, lo: Key, ranges: seq<Range>)
    ensures Items(lo, RespondRanges(d, source, lo, ranges)) == FlatMap(RespondItem(d, source), Items(lo, ranges))
    decreases ranges
  {
    if ranges != [] {
      var r, f := ranges[0], RespondItem(d, source);
      var emitted := RespondRange(d, source, lo, r);
      RespondOnItems(d, source, r.upper, ranges[1..]);
      ItemsConcat(lo, emitted, RespondRanges(d, source, r.upper, ranges[1..]));
      ItemsCons(lo, ranges);
      ItemsOne(lo, r);
      FlatMapConcat(f, Items(lo, [r]), Items(r.upper, ranges[1..]));
      if r.mode.Skip? {
        ItemsOne(lo, Range(r.upper, Skip));
      } else {
        FlatMapOne(f, Item(lo, r.upper, r.mode));
      }
    }
  }

  lemma {:induction false} NextOnItems(d: DigestFn, source: seq<Entry>, lo: Key, ranges: seq<Range>)
    ensures Items(lo, NextRanges(d, source, lo, ranges)) == FlatMap(NextItem(d, source), Items(lo, ranges))
    ensures MissingKeys(source, lo, ranges) == FlatMap(MissingItem(source), Items(lo, ranges))
    decreases ranges
  {
    if ranges != [] {
      var r, f, g := ranges[0], NextItem(d, source), MissingItem(source);
      var next := NextRange(d, source, lo, r);
      NextOnItems(d, source, r.upper, ranges[1..]);
      ItemsConcat(lo, [next], NextRanges(d, source, r.upper, ranges[1..]));
      ItemsCons(lo, ranges);
      ItemsOne(lo, r);
      FlatMapConcat(f, Items(lo, [r]), Items(r.upper, ranges[1..]));
      FlatMapConcat(g, Items(lo, [r]), Items(r.upper, ranges[1..]));
      if r.mode.Skip? {
        ItemsOne(lo, next);
      } else {
        FlatMapOne(f, Item(lo, r.upper, r.mode));
        FlatMapOne(g, Item(lo, r.upper, r.mode));
      }
    }
  }

  // ----- a round on spans -----

  predicate Differs(d: DigestFn, q: Log, r: Log, span: Span) {
    Digest(d, q, span.lo, span.hi) != Digest(d, r, span.lo, span.hi)
  }

  predicate Leaf(r: Log, span: Span) {
    RangeCount(r, span.lo, span.hi) <= LEAF_THRESHOLD
  }

  /** The two halves that the responder bisects a large range into. */
  function Halves(r: Log, span: Span): seq<Span>
    requires !Leaf(r, span)
  {
    var s := Slice(r, span.lo, span.hi);
    var mid := s[|s| / 2].key;
    [Span(span.lo, mid), Span(mid, span.hi)]
  }

  function Differing(d: DigestFn, q: Log, r: Log, spans: seq<Span>): seq<Span> {
    if spans == [] then []
    else (if Differs(d, q, r, spans[0]) then [spans[0]] else []) + Differing(d, q, r, spans[1..])
  }

  /** The ranges still in disagreement after one round on `span`. */
  function NextOf(d: DigestFn, q: Log, r: Log): Span -> seq<Span> {
    (span: Span) =>
      if !Differs(d, q, r, span) || Leaf(r, span) then [] else Differing(d, q, r, Halves(r, span))
  }

  /** The keys one round on `span` delivers to requester `q`. */
  function MissingOf(d: DigestFn, q: Log, r: Log): Span -> seq<Key> {
    (span: Span) =>
      if Differs(d, q, r, span) && Leaf(r, span)
      then Lacking(KeysInRange(r, span.lo, span.hi), KeysInRange(q, span.lo, span.hi)) else []
  }

  function Next(d: DigestFn, q: Log, r: Log, spans: seq<Span>): seq<Span> {
    FlatMap(NextOf(d, q, r), spans)
  }

  function Missing(d: DigestFn, q: Log, r: Log, spans: seq<Span>): seq<Key> {
    FlatMap(MissingOf(d, q, r), spans)
  }

  function LiveItem(d: DigestFn, q: Log, span: Span): Item {
    Item(span.lo, span.hi, Fingerprint(Digest(d, q, span.lo, span.hi)))
  }

  /** The fingerprint items a requester holding `q` sends for `spans`. */
  function Live(d: DigestFn, q: Log, spans: seq<Span>): (items: seq<Item>)
    ensures |items| == |spans|
    ensures forall i :: 0 <= i < |spans| ==> items[i] == LiveItem(d, q, spans[i])
  {
    seq(|spans|, i requires 0 <= i < |spans| => LiveItem(d, q, spans[i]))
  }

  lemma LiveConcat(d: DigestFn, q: Log, a: seq<Span>, b: seq<Span>)
    ensures Live(d, q, a + b) == Live(d, q, a) + Live(d, q, b)
  {
  }

  /** The bisection point lies strictly inside a range above the leaf threshold. */
  lemma MidInside(r: Log, span: Span)
    requires !Leaf(r, span)
    ensures var mid := Halves(r, span)[0].hi;
            Lt(span.lo, mid) && Lt(mid, span.hi) && SplitKey(r, span.lo, span.hi) == Some(mid)
  {
    var s := Slice(r, span.lo, span.hi);
    SliceSorted(r, span.lo, span.hi);
    var h := |s| / 2;
    SliceMember(r, span.lo, span.hi, s[0]);
    SliceMember(r, span.lo, span.hi, s[h]);
    assert Lt(s[0].key, s[h].key);
    LtTotal(span.lo, s[h].key);
    LtTotal(span.lo, s[0].key);
    LtTotal(s[0].key, s[h].key);
  }

  /** What a responder makes of any incoming range, from any peer: a skip when nothing
      is compared or the digests agree; else the keys of at most sixteen entries; else
      the digests of the two halves of its entries. */
  lemma RespondRangeDecided(d: DigestFn, source: Log, lo: Key, range: Range)
    ensures var mine, answer := Slice(source, lo, range.upper), RespondRange(d, source, lo, range);
            var differs := range.mode.Fingerprint? && range.mode.digest != d(mine);
            var a, b := mine[..|mine| / 2], mine[|mine| / 2..];
            && (!differs ==> answer == [Range(range.upper, Skip)])
            && (differs && |mine| <= 16 ==> answer == [Range(range.upper, Have(Keys(mine)))])
            && (differs && |mine| > 16 ==>
                  answer == [Range(b[0].key, Fingerprint(d(a))), Range(range.upper, Fingerprint(d(b)))])
  {
    var mine := Slice(source, lo, range.upper);
    if |mine| > 16 {
      var mid := mine[|mine| / 2].key;
      MidInside(source, Span(lo, range.upper));
      SlicesAtMid(source, lo, range.upper);
    }
  }

  lemma SlicesAtMid(s: Log, lo: Key, hi: Key)
    requires |Slice(s, lo, hi)| > 0
    ensures var mine := Slice(s, lo, hi);
            var h := |mine| / 2;
            Slice(s, lo, mine[h].key) == mine[..h] && Slice(s, mine[h].key, hi) == mine[h..]
  {
    hide *;
    var mine := Slice(s, lo, hi);
    var a, b, h := Cut(s, lo), Cut(s, hi), |mine| / 2;
    SliceIs(s, lo, hi);
    assert mine == s[a..b];
    SliceParts(s, a, b, h);
    CutAtEntry(s, a + h);
    SliceIs(s, lo, mine[h].key);
    SliceIs(s, mine[h].key, hi);
  }

  lemma SliceParts(s: seq<Entry>, a: nat, b: nat, h: nat)
    requires a + h < b <= |s|
    ensures s[a..b][h] == s[a + h] && s[a..b][..h] == s[a..a + h] && s[a..b][h..] == s[a + h..b]
  {
  }

  lemma SliceIs(s: seq<Entry>, lo: Key, hi: Key)
    ensures |Slice(s, lo, hi)| > 0 ==> Cut(s, lo) < Cut(s, hi)
    ensures Cut(s, lo) <= Cut(s, hi) ==> Slice(s, lo, hi) == s[Cut(s, lo)..Cut(s, hi)]
  {
  }

  lemma CutAtEntry(s: Log, i: nat)
    requires i < |s|
    ensures Cut(s, s[i].key) == i
  {
    var c := Cut(s, s[i].key);
    hide Cut, Lt;
    if c < i {
      KeysAscend(s, c, i);
    }
    CutPartitions(s, s[i].key);
    LtTotal(s[i].key, s[i].key);
  }

  lemma KeysAscend(s: Log, i: nat, j: nat)
    requires i < j < |s|
    ensures Lt(s[i].key, s[j].key)
  {
  }

  /** What the responder's answer to a live range consists of. */
  lemma AnswerItems(d: DigestFn, q: Log, r: Log, span: Span)
    ensures var answer := RespondItem(d, r)(LiveItem(d, q, span));
            if !Differs(d, q, r, span) then answer == []
            else if Leaf(r, span) then
              answer == [Item(span.lo, span.hi, Have(KeysInRange(r, span.lo, span.hi)))]
            else
              answer == [LiveItem(d, r, Halves(r, span)[0]), LiveItem(d, r, Halves(r, span)[1])]
  {
    if !Differs(d, q, r, span) {
      ItemsOne(span.lo, Range(span.hi, Skip));
    } else if Leaf(r, span) {
      ItemsOne(span.lo, Range(span.hi, Have(KeysInRange(r, span.lo, span.hi))));
    } else {
      MidInside(r, span);
      var mid := Halves(r, span)[0].hi;
      var a := Range(mid, Fingerprint(Digest(d, r, span.lo, mid)));
      var b := Range(span.hi, Fingerprint(Digest(d, r, mid, span.hi)));
      ItemsOne(span.lo, a);
      ItemsOne(mid, b);
      ItemsConcat(span.lo, [a], [b]);
      assert [a] + [b] == [a, b];
    }
  }

  /** How a requester that sees the same keys in `span` takes the responder's fingerprint. */
  lemma NextOnLive(d: DigestFn, q: Log, r: Log, q2: Log, span: Span)
    requires Slice(q, span.lo, span.hi) == Slice(q2, span.lo, span.hi)
    ensures NextItem(d, q2)(LiveItem(d, r, span))
         == Live(d, q, if Differs(d, q, r, span) then [span] else [])
    ensures MissingItem(q2)(LiveItem(d, r, span)) == []
  {
    ItemsOne(span.lo, NextRange(d, q2, span.lo, AsRange(LiveItem(d, r, span))));
  }

  /** One range: answer it, then process the answer. `q2` is the requester when
      it processes the answer; it may have ingested keys of other ranges. */
  lemma RoundOnSpan(d: DigestFn, q: Log, r: Log, q2: Log, span: Span)
    requires Differs(d, q, r, span) && !Leaf(r, span) ==>
               Slice(q, span.lo, span.hi) == Slice(q2, span.lo, span.hi)
    ensures var answer := RespondItem(d, r)(LiveItem(d, q, span));
            && FlatMap(NextItem(d, q2), answer) == Live(d, q, NextOf(d, q, r)(span))
            && (q2 == q ==> FlatMap(MissingItem(q2), answer) == MissingOf(d, q, r)(span))
  {
    AnswerItems(d, q, r, span);
    var f, g := NextItem(d, q2), MissingItem(q2);
    if !Differs(d, q, r, span) {
    } else if Leaf(r, span) {
      var have := Item(span.lo, span.hi, Have(KeysInRange(r, span.lo, span.hi)));
      FlatMapOne(f, have);
      FlatMapOne(g, have);
      ItemsOne(span.lo, Range(span.hi, Skip));
    } else {
      NextOnHalves(d, q, r, q2, span);
    }
  }

  lemma NextOnHalves(d: DigestFn, q: Log, r: Log, q2: Log, span: Span)
    requires !Leaf(r, span)
    requires Slice(q, span.lo, span.hi) == Slice(q2, span.lo, span.hi)
    ensures var h := Halves(r, span);
            var answer := [LiveItem(d, r, h[0]), LiveItem(d, r, h[1])];
            && FlatMap(NextItem(d, q2), answer) == Live(d, q, Differing(d, q, r, h))
            && FlatMap(MissingItem(q2), answer) == []
  {
    MidInside(r, span);
    var h := Halves(r, span);
    SubSlices(q, q2, span, h[0].hi);
    NextOnLive(d, q, r, q2, h[0]);
    NextOnLive(d, q, r, q2, h[1]);
    FlatMapTwo(NextItem(d, q2), LiveItem(d, r, h[0]), LiveItem(d, r, h[1]));
    FlatMapTwo(MissingItem(q2), LiveItem(d, r, h[0]), LiveItem(d, r, h[1]));
    LiveHalves(d, q, r, span);
    LiveConcat(d, q, if Differs(d, q, r, h[0]) then [h[0]] else [], if Differs(d, q, r, h[1]) then [h[1]] else []);
  }

  lemma SubSlices(q: Log, q2: Log, span: Span, mid: Key)
    requires Lt(span.lo, mid) && Lt(mid, span.hi)
    requires Slice(q, span.lo, span.hi) == Slice(q2, span.lo, span.hi)
    ensures Slice(q, span.lo, mid) == Slice(q2, span.lo, mid)
    ensures Slice(q, mid, span.hi) == Slice(q2, mid, span.hi)
  {
    KeyOrder();
    forall lo, hi, e | Le(span.lo, lo) && Le(hi, span.hi)
      ensures e in Slice(q, lo, hi) <==> e in Slice(q2, lo, hi)
    {
      SliceMember(q, lo, hi, e);
      SliceMember(q2, lo, hi, e);
      SliceMember(q, span.lo, span.hi, e);
      SliceMember(q2, span.lo, span.hi, e);
    }
    SliceSorted(q, span.lo, mid);
    SliceSorted(q2, span.lo, mid);
    SliceSorted(q, mid, span.hi);
    SliceSorted(q2, mid, span.hi);
    SortedByMembers(Slice(q, span.lo, mid), Slice(q2, span.lo, mid));
    SortedByMembers(Slice(q, mid, span.hi), Slice(q2, mid, span.hi));
  }

  lemma LiveHalves(d: DigestFn, q: Log, r: Log, span: Span)
    requires !Leaf(r, span)
    ensures var h := Halves(r, span);
            Differing(d, q, r, h) == (if Differs(d, q, r, h[0]) then [h[0]] else [])
                                     + (if Differs(d, q, r, h[1]) then [h[1]] else [])
  {
    var h := Halves(r, span);
    assert h[1..] == [h[1]] && h[1..][1..] == [];
    assert Differing(d, q, r, h[1..][1..]) == [];
  }

  /** Where the requester's view may have changed since the request. */
  predicate SameOnSplits(d: DigestFn, q: Log, r: Log, q2: Log, spans: seq<Span>) {
    forall i :: 0 <= i < |spans| && Differs(d, q, r, spans[i]) && !Leaf(r, spans[i]) ==>
      Slice(q, spans[i].lo, spans[i].hi) == Slice(q2, spans[i].lo, spans[i].hi)
  }

  /** A full round on the list of live ranges. */
  lemma {:induction false} RoundOnSpans(d: DigestFn, q: Log, r: Log, q2: Log, spans: seq<Span>)
    requires SameOnSplits(d, q, r, q2, spans)
    ensures var answer := FlatMap(RespondItem(d, r), Live(d, q, spans));
            && FlatMap(NextItem(d, q2), answer) == Live(d, q, Next(d, q, r, spans))
            && (q2 == q ==> FlatMap(MissingItem(q2), answer) == Missing(d, q, r, spans))
  {
    if spans != [] {
      var span, rest := spans[0], spans[1..];
      RoundOnSpan(d, q, r, q2, span);
      RoundOnSpans(d, q, r, q2, rest);
      assert Live(d, q, spans)[1..] == Live(d, q, rest);
      hide RespondItem, NextItem, MissingItem, LiveItem;
      FlatMapCons(RespondItem(d, r), Live(d, q, spans));
      var first, others := RespondItem(d, r)(LiveItem(d, q, span)), FlatMap(RespondItem(d, r), Live(d, q, rest));
      FlatMapConcat(NextItem(d, q2), first, others);
      FlatMapConcat(MissingItem(q2), first, others);
      LiveConcat(d, q, NextOf(d, q, r)(span), Next(d, q, r, rest));
    }
  }

  lemma {:induction false} MismatchIsItem(lo: Key, ranges: seq<Range>)
    requires forall i :: 0 <= i < |ranges| ==> !ranges[i].mode.Have?
    ensures AnyMismatch(ranges) <==> Items(lo, ranges) != []
    decreases ranges
  {
    if ranges != [] {
      MismatchIsItem(ranges[0].upper, ranges[1..]);
      AnyMismatchCons(ranges);
    }
  }

  lemma AnyMismatchCons(ranges: seq<Range>)
    requires ranges != []
    ensures AnyMismatch(ranges) <==> ranges[0].mode.Fingerprint? || AnyMismatch(ranges[1..])
  {
    if AnyMismatch(ranges[1..]) {
      var i :| 0 <= i < |ranges[1..]| && ranges[1..][i].mode.Fingerprint?;
      assert ranges[i + 1].mode.Fingerprint?;
    }
    if AnyMismatch(ranges) && !ranges[0].mode.Fingerprint? {
      var i :| 0 <= i < |ranges| && ranges[i].mode.Fingerprint?;
      assert ranges[1..][i - 1].mode.Fingerprint?;
    }
  }

  lemma {:induction false} NextRangesHaveNoHave(d: DigestFn, source: seq<Entry>, lo: Key, ranges: seq<Range>)
    ensures forall i :: 0 <= i < |NextRanges(d, source, lo, ranges)| ==>
              !NextRanges(d, source, lo, ranges)[i].mode.Have?
    decreases ranges
  {
    if ranges != [] {
      NextRangesHaveNoHave(d, source, ranges[0].upper, ranges[1..]);
    }
  }

  /** A request whose fingerprints are `q`'s own over exactly the ranges `spans`. */
  predicate Asks(d: DigestFn, q: Log, request: Message, spans: seq<Span>) {
    Items(MinKey(), request.ranges) == Live(d, q, spans)
  }

  lemma InitialAsks(d: DigestFn, q: Log)
    ensures Asks(d, q, InitialRequest(d, q), [Span(MinKey(), MaxKey())])
  {
    var span := Span(MinKey(), MaxKey());
    ItemsOne(MinKey(), InitialRequest(d, q).ranges[0]);
  }

  /** One message exchange performs exactly one round on the live ranges, and
      every fingerprint of the next request is again the requester's own over its
      positional range. `q2` is the requester's set when it processes the reply. */
  lemma RoundRefines(d: DigestFn, q: Log, r: Log, q2: Log, request: Message, spans: seq<Span>)
    requires Asks(d, q, request, spans)
    requires SameOnSplits(d, q, r, q2, spans)
    ensures var reply := Respond(d, r, request);
            var next := NextRequest(d, q2, reply);
            && (next.None? <==> Next(d, q, r, spans) == [])
            && (next.Some? ==> Asks(d, q, next.value, Next(d, q, r, spans)))
            && (q2 == q ==> MissingKeys(q2, MinKey(), reply.ranges) == Missing(d, q, r, spans))
  {
    ReplyItems(d, r, MinKey(), request.ranges);
    NextRequestItems(d, q2, MinKey(), Respond(d, r, request).ranges);
    RoundOnSpans(d, q, r, q2, spans);
  }

  lemma ReplyItems(d: DigestFn, source: seq<Entry>, lo: Key, ranges: seq<Range>)
    ensures Items(lo, PushAll([], RespondRanges(d, source, lo, ranges)))
         == FlatMap(RespondItem(d, source), Items(lo, ranges))
  {
    RespondOnItems(d, source, lo, ranges);
    ItemsPushAll(lo, [], RespondRanges(d, source, lo, ranges));
  }

  lemma NextRequestItems(d: DigestFn, source: seq<Entry>, lo: Key, ranges: seq<Range>)
    ensures var next := NextRanges(d, source, lo, ranges);
            && Items(lo, PushAll([], next)) == FlatMap(NextItem(d, source), Items(lo, ranges))
            && (AnyMismatch(next) <==> FlatMap(NextItem(d, source), Items(lo, ranges)) != [])
    ensures MissingKeys(source, lo, ranges) == FlatMap(MissingItem(source), Items(lo, ranges))
  {
    var next := NextRanges(d, source, lo, ranges);
    NextOnItems(d, source, lo, ranges);
    ItemsPushAll(lo, [], next);
    NextRangesHaveNoHave(d, source, lo, ranges);
    MismatchIsItem(lo, next);
  }
}
