/** The reconciliation loop itself, with its whole transcript, and the variant in
    which the requester ingests what it receives before it processes each reply
    (`src-tauri/src/channel_rbsr.rs`, `src-tauri/src/community_channel_log_engine.rs`). */
module RbsrReconcile {
  import opened Prelude
  import opened ReconcileKey
  import opened Rbsr
  import opened RbsrSpans
  import opened RbsrRun
  import opened RbsrPartition
  import opened RbsrCost

  // ----- keys shipped by a reply -----

  function HaveKeys(ranges: seq<Range>): nat {
    if ranges == [] then 0
    else (if ranges[0].mode.Have? then |ranges[0].mode.keys| else 0) + HaveKeys(ranges[1..])
  }

  function ItemHave(items: seq<Item>): nat {
    if items == [] then 0
    else (if items[0].mode.Have? then |items[0].mode.keys| else 0) + ItemHave(items[1..])
  }

  lemma {:induction false} ItemHaveConcat(a: seq<Item>, b: seq<Item>)
    ensures ItemHave(a + b) == ItemHave(a) + ItemHave(b)
  {
    if a == [] {
      assert a + b == b;
    } else {
      ItemHaveConcat(a[1..], b);
      assert (a + b)[1..] == a[1..] + b;
    }
  }

  lemma {:induction false} HaveKeysAreItems(lo: Key, ranges: seq<Range>)
    ensures HaveKeys(ranges) == ItemHave(Items(lo, ranges))
    decreases ranges
  {
    if ranges != [] {
      HaveKeysAreItems(ranges[0].upper, ranges[1..]);
      ItemsCons(lo, ranges);
      ItemsOne(lo, ranges[0]);
      ItemHaveConcat(Items(lo, [ranges[0]]), Items(ranges[0].upper, ranges[1..]));
      if !ranges[0].mode.Skip? {
        assert Items(lo, [ranges[0]])[1..] == [];
      }
    }
  }

  lemma {:induction false} AnswerHave(d: DigestFn, q: Log, r: Log, spans: seq<Span>)
    ensures ItemHave(FlatMap(RespondItem(d, r), Live(d, q, spans))) == HaveIn(d, q, r, spans)
  {
    if spans != [] {
      AnswerHave(d, q, r, spans[1..]);
      AnswerItems(d, q, r, spans[0]);
      assert Live(d, q, spans)[1..] == Live(d, q, spans[1..]);
      var first := RespondItem(d, r)(LiveItem(d, q, spans[0]));
      FlatMapCons(RespondItem(d, r), Live(d, q, spans));
      ItemHaveConcat(first, FlatMap(RespondItem(d, r), Live(d, q, spans[1..])));
      if |first| == 1 {
        assert first[1..] == [];
      } else if |first| == 2 {
        assert first[1..][1..] == [];
      }
    }
  }

  lemma ReplyHave(d: DigestFn, q: Log, r: Log, request: Message, spans: seq<Span>)
    requires Asks(d, q, request, spans)
    ensures HaveKeys(Respond(d, r, request).ranges) == HaveIn(d, q, r, spans)
  {
    HaveKeysAreItems(MinKey(), Respond(d, r, request).ranges);
    ReplyItems(d, r, MinKey(), request.ranges);
    AnswerHave(d, q, r, spans);
  }

  // ----- the loop -----

  datatype Exchange = Exchange(request: Message, reply: Message)

  /** What holds of every exchange of a run between sets that differ in `diff` entries. */
  predicate ExchangeOk(x: Exchange, diff: nat) {
    && ValidPartition(x.request)
    && ValidPartition(x.reply)
    && |x.request.ranges| <= 2 * diff + 1
    && |x.reply.ranges| <= 3 * diff + 1
  }

  /** All keys in the `Have` lists of a transcript. */
  function Shipped(transcript: seq<Exchange>): nat {
    if transcript == [] then 0
    else Shipped(transcript[..|transcript| - 1]) + HaveKeys(transcript[|transcript| - 1].reply.ranges)
  }

  lemma ShippedAppend(t: seq<Exchange>, x: Exchange)
    ensures Shipped(t + [x]) == Shipped(t) + HaveKeys(x.reply.ranges)
  {
    assert (t + [x])[..|t|] == t;
  }

  /** Requester `q` and responder `r`, driven until no next request. Every
      exchanged message is a valid partition whose length follows the difference
      of the two sets; the leaf lists together carry at most LEAF_THRESHOLD keys
      per differing entry; and the run delivers what the conservation and
      exactness lemmas say about `Run`. */
  method Reconcile(d: DigestFn, q: Log, r: Log)
    returns (rounds: nat, acquired: seq<Key>, transcript: seq<Exchange>)
    ensures RunResult(rounds, acquired) == Run(d, q, r, [UNIVERSE])
    ensures |transcript| == rounds
    ensures forall i :: 0 <= i < |transcript| ==> ExchangeOk(transcript[i], SymmetricDifference(q, r))
    ensures Shipped(transcript) <= LEAF_THRESHOLD * SymmetricDifference(q, r)
    ensures |r| <= 0x8_0000_0000 ==> rounds <= MAX_RBSR_ROUNDS
    ensures CollisionFree(d, q, r, [UNIVERSE]) ==>
              forall k :: multiset(acquired)[k] == if Wanted(q, r, k) && Lt(k, MaxKey()) then 1 else 0
  {
    hide Run, RunHave, Missing, Next, MaxCount, Diff, SumDiff, ValidPartition, Asks, ExchangeOk, Respond, NextRequest,
         MissingKeys, SymmetricDifference, CollisionFree, HaveIn, HaveKeys, Wanted, Lt, InitialRequest;
    var request := InitialRequest(d, q);
    ghost var spans := [UNIVERSE];
    ghost var diff := SymmetricDifference(q, r);
    rounds, acquired, transcript := 0, [], [];
    StartFacts(d, q, r);
    assert acquired + Run(d, q, r, spans).acquired == Run(d, q, r, spans).acquired;
    ghost var total := Run(d, q, r, spans);
    while true
      invariant Asks(d, q, request, spans) && ValidPartition(request)
      invariant SumDiff(q, r, spans) <= diff && |request.ranges| <= 2 * diff + 1
      invariant total == RunResult(rounds + Run(d, q, r, spans).rounds, acquired + Run(d, q, r, spans).acquired)
      invariant |transcript| == rounds
      invariant forall i :: 0 <= i < |transcript| ==> ExchangeOk(transcript[i], diff)
      invariant Shipped(transcript) + RunHave(d, q, r, spans) <= LEAF_THRESHOLD * diff
      decreases MaxCount(r, spans)
    {
      rounds := rounds + 1;
      var reply := RespondLoop(d, r, request);
      var missing, next := ProcessReplyLoop(d, q, reply);
      StepFacts(d, q, r, request, spans, diff);
      ShippedAppend(transcript, Exchange(request, reply));
      transcript := transcript + [Exchange(request, reply)];
      acquired := acquired + missing;
      match next {
        case None =>
          break;
        case Some(n) =>
          request := n;
          spans := Next(d, q, r, spans);
      }
    }
    RunPromises(d, q, r);
  }

  lemma StartFacts(d: DigestFn, q: Log, r: Log)
    ensures var request, diff := InitialRequest(d, q), SymmetricDifference(q, r);
            && Asks(d, q, request, [UNIVERSE]) && ValidPartition(request)
            && SumDiff(q, r, [UNIVERSE]) <= diff && |request.ranges| <= 2 * diff + 1
            && RunHave(d, q, r, [UNIVERSE]) <= LEAF_THRESHOLD * diff
  {
    hide RunHave, SumDiff, ValidPartition, Asks, SymmetricDifference;
    InitialAsks(d, q);
    InitialRequestValid(d, q);
    SumDiffOne(q, r, UNIVERSE);
    DiffBounded(q, r, UNIVERSE);
    RunCost(d, q, r, [UNIVERSE]);
  }

  lemma RunPromises(d: DigestFn, q: Log, r: Log)
    ensures |r| <= 0x8_0000_0000 ==> Run(d, q, r, [UNIVERSE]).rounds <= MAX_RBSR_ROUNDS
    ensures CollisionFree(d, q, r, [UNIVERSE]) ==>
              forall k :: multiset(Run(d, q, r, [UNIVERSE]).acquired)[k]
                          == if Wanted(q, r, k) && Lt(k, MaxKey()) then 1 else 0
  {
    hide Run, CollisionFree, Wanted, Lt;
    if |r| <= 0x8_0000_0000 {
      RoundCapSuffices(d, q, r);
    }
    if CollisionFree(d, q, r, [UNIVERSE]) {
      ReconciliationExact(d, q, r);
    }
  }

  /** Everything the loop needs to know about one exchange. */
  lemma StepFacts(d: DigestFn, q: Log, r: Log, request: Message, spans: seq<Span>, diff: nat)
    requires Asks(d, q, request, spans) && ValidPartition(request)
    requires SumDiff(q, r, spans) <= diff && |request.ranges| <= 2 * diff + 1
    ensures var reply, live := Respond(d, r, request), Next(d, q, r, spans);
            var missing, next := MissingKeys(q, MinKey(), reply.ranges), NextRequest(d, q, reply);
            && ExchangeOk(Exchange(request, reply), diff)
            && HaveKeys(reply.ranges) == HaveIn(d, q, r, spans)
            && missing == Missing(d, q, r, spans)
            && (next.None? <==> live == [])
            && (live == [] ==>
                  && Run(d, q, r, spans) == RunResult(1, missing)
                  && RunHave(d, q, r, spans) == HaveIn(d, q, r, spans))
            && (live != [] ==>
                  && MaxCount(r, live) < MaxCount(r, spans)
                  && Asks(d, q, next.value, live) && ValidPartition(next.value)
                  && SumDiff(q, r, live) <= diff && |next.value.ranges| <= 2 * diff + 1
                  && Run(d, q, r, spans)
                       == RunResult(1 + Run(d, q, r, live).rounds, missing + Run(d, q, r, live).acquired)
                  && RunHave(d, q, r, spans) == HaveIn(d, q, r, spans) + RunHave(d, q, r, live))
  {
    hide Respond, NextRequest, MissingKeys, Missing, Next, HaveIn, Diff, Items, Live;
    var reply := Respond(d, r, request);
    RoundRefines(d, q, r, q, request, spans);
    ExchangeLengths(d, q, r, request, spans);
    ReplyHave(d, q, r, request, spans);
    RespondPreservesPartition(d, r, request);
    NextRequestPreservesPartition(d, q, reply);
    RunUnfolds(d, q, r, spans);
    NextHalves(d, q, r, spans);
    RoundCost(d, q, r, spans);
  }

  // ----- ingesting between receiving and processing a reply -----

  /** The responder entries that a round on `span` ships. */
  function ShippedOf(d: DigestFn, q: Log, r: Log): Span -> seq<Entry> {
    (span: Span) => if Differs(d, q, r, span) && Leaf(r, span) then Slice(r, span.lo, span.hi) else []
  }

  function ShippedBy(d: DigestFn, q: Log, r: Log, spans: seq<Span>): seq<Entry> {
    FlatMap(ShippedOf(d, q, r), spans)
  }

  /** Appends the received events to the log; a key already present is left alone. */
  function Ingest(q: Log, events: seq<Entry>): (q': Log)
    decreases events
  {
    if events == [] then q
    else
      InsertSpec(q, events[0]);
      Ingest(Insert(q, events[0]), events[1..])
  }

  lemma {:induction false} IngestKeys(q: Log, events: seq<Entry>, k: Key)
    ensures HasKey(Ingest(q, events), k) <==> HasKey(q, k) || HasKey(events, k)
    decreases events
  {
    if events != [] {
      InsertSpec(q, events[0]);
      HasKeyAfterInsert(q, events[0], k);
      IngestKeys(Insert(q, events[0]), events[1..], k);
      HasKeyCons(events, k);
    }
  }

  lemma {:induction false} IngestMember(q: Log, events: seq<Entry>, x: Entry)
    requires Consistent(events)
    ensures x in Ingest(q, events) <==> x in q || (x in events && !HasKey(q, x.key))
    decreases events
  {
    if events != [] {
      var e, rest := events[0], events[1..];
      InsertSpec(q, e);
      HasKeyAfterInsert(q, e, x.key);
      assert events == [e] + rest;
      forall i, j | 0 <= i < |rest| && 0 <= j < |rest| && rest[i].key == rest[j].key ensures rest[i] == rest[j] {
        assert events[i + 1] == rest[i] && events[j + 1] == rest[j];
      }
      hide Insert, HasKey;
      IngestMember(Insert(q, e), rest, x);
      if x in rest && x.key == e.key {
        var i :| 0 <= i < |rest| && rest[i] == x;
        assert events[i + 1] == x && events[0] == e;
      }
    }
  }

  /** The order in which a reply's events arrive does not matter. */
  lemma IngestOrderIrrelevant(q: Log, es: seq<Entry>, fs: seq<Entry>)
    requires Consistent(es) && Consistent(fs) && forall e :: e in es <==> e in fs
    ensures Ingest(q, es) == Ingest(q, fs)
  {
    forall x ensures x in Ingest(q, es) <==> x in Ingest(q, fs) {
      IngestMember(q, es, x);
      IngestMember(q, fs, x);
    }
    SortedByMembers(Ingest(q, es), Ingest(q, fs));
  }

  lemma HasKeyCons(s: seq<Entry>, k: Key)
    requires s != []
    ensures HasKey(s, k) <==> s[0].key == k || HasKey(s[1..], k)
  {
    if HasKey(s[1..], k) {
      var i :| 0 <= i < |s[1..]| && s[1..][i].key == k;
      assert s[i + 1].key == k;
    }
    if HasKey(s, k) && s[0].key != k {
      var i :| 0 <= i < |s| && s[i].key == k;
      assert s[1..][i - 1].key == k;
    }
  }

  /** Ingesting keys outside a range leaves the range alone. */
  lemma {:induction false} IngestOutside(q: Log, events: seq<Entry>, span: Span)
    requires forall i :: 0 <= i < |events| ==> !InRange(events[i].key, span.lo, span.hi)
    ensures Slice(Ingest(q, events), span.lo, span.hi) == Slice(q, span.lo, span.hi)
    decreases events
  {
    if events != [] {
      var q' := Insert(q, events[0]);
      InsertSpec(q, events[0]);
      IngestOutside(q', events[1..], span);
      forall e ensures e in Slice(q', span.lo, span.hi) <==> e in Slice(q, span.lo, span.hi) {
        SliceMember(q', span.lo, span.hi, e);
        SliceMember(q, span.lo, span.hi, e);
      }
      SliceSorted(q', span.lo, span.hi);
      SliceSorted(q, span.lo, span.hi);
      SortedByMembers(Slice(q', span.lo, span.hi), Slice(q, span.lo, span.hi));
    }
  }

  /** Live ranges come in ascending order and do not overlap. */
  predicate Disjoint(spans: seq<Span>) {
    && (forall i :: 0 <= i < |spans| ==> Lt(spans[i].lo, spans[i].hi))
    && (forall i, j :: 0 <= i < j < |spans| ==> Le(spans[i].hi, spans[j].lo))
  }

  /** All of `spans` lie inside `[lo, hi)`. */
  predicate Within(spans: seq<Span>, lo: Key, hi: Key) {
    forall i :: 0 <= i < |spans| ==> Le(lo, spans[i].lo) && Le(spans[i].hi, hi)
  }

  lemma DisjointConcat(a: seq<Span>, b: seq<Span>, mid: Key)
    requires Disjoint(a) && Disjoint(b)
    requires forall i :: 0 <= i < |a| ==> Le(a[i].hi, mid)
    requires forall i :: 0 <= i < |b| ==> Le(mid, b[i].lo)
    ensures Disjoint(a + b)
  {
    KeyOrder();
  }

  lemma {:induction false} NextWithin(d: DigestFn, q: Log, r: Log, spans: seq<Span>, lo: Key, hi: Key)
    requires Disjoint(spans) && Within(spans, lo, hi)
    ensures Within(Next(d, q, r, spans), lo, hi)
  {
    NextCons(d, q, r, spans);
    if spans != [] {
      hide *;
      var span, rest := spans[0], spans[1..];
      DisjointHead(spans, lo, hi);
      NextOfWithin(d, q, r, span);
      NextWithin(d, q, r, rest, lo, hi);
      WithinWiden(NextOf(d, q, r)(span), span.lo, span.hi, lo, hi);
      WithinConcat(NextOf(d, q, r)(span), Next(d, q, r, rest), lo, hi);
    }
  }

  lemma NextCons(d: DigestFn, q: Log, r: Log, spans: seq<Span>)
    ensures spans == [] ==> Next(d, q, r, spans) == []
    ensures spans != [] ==> Next(d, q, r, spans) == NextOf(d, q, r)(spans[0]) + Next(d, q, r, spans[1..])
  {
    hide NextOf;
  }

  lemma DisjointHead(spans: seq<Span>, lo: Key, hi: Key)
    requires spans != [] && Disjoint(spans) && Within(spans, lo, hi)
    ensures Lt(spans[0].lo, spans[0].hi) && Le(lo, spans[0].lo) && Le(spans[0].hi, hi)
    ensures Disjoint(spans[1..]) && Within(spans[1..], lo, hi)
  {
    hide Lt, Le;
  }

  lemma WithinConcat(a: seq<Span>, b: seq<Span>, lo: Key, hi: Key)
    requires Within(a, lo, hi) && Within(b, lo, hi)
    ensures Within(a + b, lo, hi)
  {
    hide Lt, Le;
  }

  lemma WithinWiden(spans: seq<Span>, lo: Key, hi: Key, lo': Key, hi': Key)
    requires Within(spans, lo, hi) && Le(lo', lo) && Le(hi, hi')
    ensures Within(spans, lo', hi')
  {
    KeyOrder();
    hide Lt;
  }

  lemma {:induction false} NextDisjoint(d: DigestFn, q: Log, r: Log, spans: seq<Span>)
    requires Disjoint(spans)
    ensures Disjoint(Next(d, q, r, spans))
  {
    if spans != [] {
      var span, rest := spans[0], spans[1..];
      NextOfWithin(d, q, r, span);
      NextCons(d, q, r, spans);
      hide NextOf, Next, Lt;
      NextDisjoint(d, q, r, rest);
      if rest != [] {
        DisjointRest(spans);
        NextWithin(d, q, r, rest, span.hi, rest[|rest| - 1].hi);
      }
      DisjointConcat(NextOf(d, q, r)(span), Next(d, q, r, rest), span.hi);
    }
  }

  /** What follows the first of disjoint ranges lies between its end and the last end. */
  lemma DisjointRest(spans: seq<Span>)
    requires Disjoint(spans) && |spans| > 1
    ensures Within(spans[1..], spans[0].hi, spans[|spans| - 1].hi)
  {
    KeyOrder();
    hide Lt;
  }

  lemma NextOfWithin(d: DigestFn, q: Log, r: Log, span: Span)
    requires Lt(span.lo, span.hi)
    ensures Disjoint(NextOf(d, q, r)(span)) && Within(NextOf(d, q, r)(span), span.lo, span.hi)
  {
    if Differs(d, q, r, span) && !Leaf(r, span) {
      MidInside(r, span);
      LiveHalves(d, q, r, span);
      var h := Halves(r, span);
      HalvesWithin(span, h[0].hi, Differs(d, q, r, h[0]), Differs(d, q, r, h[1]));
    }
  }

  lemma HalvesWithin(span: Span, mid: Key, left: bool, right: bool)
    requires Lt(span.lo, mid) && Lt(mid, span.hi)
    ensures var kept := (if left then [Span(span.lo, mid)] else []) + (if right then [Span(mid, span.hi)] else []);
            Disjoint(kept) && Within(kept, span.lo, span.hi)
  {
    LtTotal(span.lo, mid);
    LtTotal(mid, span.hi);
    LtTotal(span.lo, span.lo);
    LtTotal(mid, mid);
    LtTotal(span.hi, span.hi);
    hide Lt;
  }

  lemma {:induction false} ShippedInLeaves(d: DigestFn, q: Log, r: Log, spans: seq<Span>, e: Entry)
    requires e in ShippedBy(d, q, r, spans)
    ensures exists i :: 0 <= i < |spans| && Differs(d, q, r, spans[i]) && Leaf(r, spans[i])
                     && InRange(e.key, spans[i].lo, spans[i].hi)
  {
    if e in ShippedOf(d, q, r)(spans[0]) {
      SliceMember(r, spans[0].lo, spans[0].hi, e);
    } else {
      ShippedInLeaves(d, q, r, spans[1..], e);
      var i :| 0 <= i < |spans[1..]| && Differs(d, q, r, spans[1..][i]) && Leaf(r, spans[1..][i])
            && InRange(e.key, spans[1..][i].lo, spans[1..][i].hi);
      assert spans[i + 1] == spans[1..][i];
    }
  }

  lemma InAtMostOne(k: Key, a: Span, b: Span)
    requires Le(a.hi, b.lo)
    ensures !(InRange(k, a.lo, a.hi) && InRange(k, b.lo, b.hi))
  {
    LtTotal(a.hi, b.lo);
    if Lt(k, a.hi) && Lt(a.hi, b.lo) {
      LtTrans(k, a.hi, b.lo);
    }
  }

  /** What a round ships never touches the ranges that stay live. */
  lemma ShippedOutsideSplits(d: DigestFn, q: Log, r: Log, spans: seq<Span>, j: nat)
    requires Disjoint(spans) && j < |spans| && !(Differs(d, q, r, spans[j]) && Leaf(r, spans[j]))
    ensures forall x :: 0 <= x < |ShippedBy(d, q, r, spans)| ==>
              !InRange(ShippedBy(d, q, r, spans)[x].key, spans[j].lo, spans[j].hi)
  {
    var events := ShippedBy(d, q, r, spans);
    forall x | 0 <= x < |events| ensures !InRange(events[x].key, spans[j].lo, spans[j].hi) {
      ShippedInLeaves(d, q, r, spans, events[x]);
      var i :| 0 <= i < |spans| && Differs(d, q, r, spans[i]) && Leaf(r, spans[i])
            && InRange(events[x].key, spans[i].lo, spans[i].hi);
      if i < j {
        InAtMostOne(events[x].key, spans[i], spans[j]);
      } else {
        InAtMostOne(events[x].key, spans[j], spans[i]);
      }
    }
  }

  /** Two requesters that see the same keys in every live range run alike. */
  predicate SameOn(a: Log, b: Log, spans: seq<Span>) {
    forall i :: 0 <= i < |spans| ==>
      Slice(a, spans[i].lo, spans[i].hi) == Slice(b, spans[i].lo, spans[i].hi)
  }

  lemma {:induction false} SameRound(d: DigestFn, a: Log, b: Log, r: Log, spans: seq<Span>)
    requires SameOn(a, b, spans)
    ensures Next(d, a, r, spans) == Next(d, b, r, spans)
    ensures Missing(d, a, r, spans) == Missing(d, b, r, spans)
    ensures ShippedBy(d, a, r, spans) == ShippedBy(d, b, r, spans)
    ensures Live(d, a, spans) == Live(d, b, spans)
  {
    if spans != [] {
      var span, rest := spans[0], spans[1..];
      SameSpan(d, a, b, r, span);
      SameLive(d, a, b, spans);
      hide Slice, NextOf, MissingOf, ShippedOf, FlatMap, Live;
      SameRound(d, a, b, r, rest);
      FlatMapCons(NextOf(d, a, r), spans);
      FlatMapCons(NextOf(d, b, r), spans);
      FlatMapCons(MissingOf(d, a, r), spans);
      FlatMapCons(MissingOf(d, b, r), spans);
      FlatMapCons(ShippedOf(d, a, r), spans);
      FlatMapCons(ShippedOf(d, b, r), spans);
    }
  }

  lemma SameSpan(d: DigestFn, a: Log, b: Log, r: Log, span: Span)
    requires Slice(a, span.lo, span.hi) == Slice(b, span.lo, span.hi)
    ensures NextOf(d, a, r)(span) == NextOf(d, b, r)(span)
    ensures MissingOf(d, a, r)(span) == MissingOf(d, b, r)(span)
    ensures ShippedOf(d, a, r)(span) == ShippedOf(d, b, r)(span)
  {
    if Differs(d, a, r, span) && !Leaf(r, span) {
      MidInside(r, span);
      SubSlices(a, b, span, Halves(r, span)[0].hi);
      LiveHalves(d, a, r, span);
      LiveHalves(d, b, r, span);
    }
  }

  lemma SameLive(d: DigestFn, a: Log, b: Log, spans: seq<Span>)
    requires SameOn(a, b, spans)
    ensures Live(d, a, spans) == Live(d, b, spans)
  {
    hide Slice;
    forall i | 0 <= i < |spans| ensures LiveItem(d, a, spans[i]) == LiveItem(d, b, spans[i]) {
    }
  }

  /** Agreeing on the bisected ranges is enough to agree on everything still live. */
  lemma {:induction false} SplitsKeepLive(d: DigestFn, a: Log, r: Log, b: Log, spans: seq<Span>)
    requires SameOnSplits(d, a, r, b, spans)
    ensures SameOn(a, b, Next(d, a, r, spans))
  {
    if spans != [] {
      var span, rest := spans[0], spans[1..];
      assert forall i :: 0 <= i < |rest| ==> rest[i] == spans[i + 1];
      SplitKeepsLive(d, a, r, b, span);
      hide NextOf, Differs, Leaf, Slice, SameOn;
      SplitsKeepLive(d, a, r, b, rest);
      FlatMapCons(NextOf(d, a, r), spans);
      SameOnConcat(a, b, NextOf(d, a, r)(span), Next(d, a, r, rest));
    }
  }

  lemma SameOnConcat(a: Log, b: Log, x: seq<Span>, y: seq<Span>)
    requires SameOn(a, b, x) && SameOn(a, b, y)
    ensures SameOn(a, b, x + y)
  {
    hide Slice;
  }

  lemma SplitKeepsLive(d: DigestFn, a: Log, r: Log, b: Log, span: Span)
    requires Differs(d, a, r, span) && !Leaf(r, span) ==>
               Slice(a, span.lo, span.hi) == Slice(b, span.lo, span.hi)
    ensures SameOn(a, b, NextOf(d, a, r)(span))
  {
    if Differs(d, a, r, span) && !Leaf(r, span) {
      MidInside(r, span);
      SubSlices(a, b, span, Halves(r, span)[0].hi);
      LiveHalves(d, a, r, span);
    }
  }

  /** A key is shipped exactly when it was already there or is delivered as missing. */
  lemma {:induction false} ShippedKeys(d: DigestFn, q: Log, r: Log, spans: seq<Span>, k: Key)
    ensures k in Missing(d, q, r, spans) ==> HasKey(ShippedBy(d, q, r, spans), k)
    ensures HasKey(ShippedBy(d, q, r, spans), k) ==> HasKey(q, k) || k in Missing(d, q, r, spans)
  {
    if spans != [] {
      var span := spans[0];
      ShippedKeys(d, q, r, spans[1..], k);
      HasKeyConcat(ShippedOf(d, q, r)(span), ShippedBy(d, q, r, spans[1..]), k);
      if Differs(d, q, r, span) && Leaf(r, span) {
        KeysMember(r, span.lo, span.hi, k);
        KeysMember(q, span.lo, span.hi, k);
        SliceKeysDistinct(r, span.lo, span.hi);
        LackingOccurs(KeysInRange(r, span.lo, span.hi), KeysInRange(q, span.lo, span.hi), k);
        SliceHasKey(r, span, k);
      }
    }
  }

  lemma SliceHasKey(s: Log, span: Span, k: Key)
    ensures HasKey(Slice(s, span.lo, span.hi), k) <==> k in KeysInRange(s, span.lo, span.hi)
  {
    var slice := Slice(s, span.lo, span.hi);
    if HasKey(slice, k) {
      var i :| 0 <= i < |slice| && slice[i].key == k;
      assert Keys(slice)[i] == k;
    }
  }

  lemma HasKeyConcat(a: seq<Entry>, b: seq<Entry>, k: Key)
    ensures HasKey(a + b, k) <==> HasKey(a, k) || HasKey(b, k)
  {
    if HasKey(a, k) {
      var i :| 0 <= i < |a| && a[i].key == k;
      assert (a + b)[i].key == k;
    }
    if HasKey(b, k) {
      var i :| 0 <= i < |b| && b[i].key == k;
      assert (a + b)[|a| + i].key == k;
    }
    if HasKey(a + b, k) {
      var i :| 0 <= i < |a + b| && (a + b)[i].key == k;
      if i >= |a| { assert b[i - |a|].key == k; } else { assert a[i].key == k; }
    }
  }

  // ----- the events behind a reply -----

  /** The responder's events for a list of advertised keys. */
  function EventsFor(r: Log, keys: seq<Key>): seq<Entry> {
    if keys == [] then []
    else
      var c := Cut(r, keys[0]);
      (if c < |r| && r[c].key == keys[0] then [r[c]] else []) + EventsFor(r, keys[1..])
  }

  function ItemEvents(r: Log): Item -> seq<Entry> {
    (item: Item) => if item.mode.Have? then EventsFor(r, item.mode.keys) else []
  }

  /** The inline events that travel with a reply. */
  function ReplyEvents(r: Log, reply: Message): seq<Entry> {
    FlatMap(ItemEvents(r), Items(MinKey(), reply.ranges))
  }

  lemma {:induction false} EventsOfSlice(r: Log, a: nat, b: nat)
    requires a <= b <= |r|
    ensures EventsFor(r, Keys(r[a..b])) == r[a..b]
    decreases b - a
  {
    if a < b {
      CutOfMember(r, a);
      EventsOfSlice(r, a + 1, b);
      assert r[a..b] == [r[a]] + r[a + 1..b];
      assert Keys(r[a..b])[1..] == Keys(r[a + 1..b]);
    }
  }

  lemma {:induction false} AnswerEvents(d: DigestFn, q: Log, r: Log, spans: seq<Span>)
    ensures FlatMap(ItemEvents(r), FlatMap(RespondItem(d, r), Live(d, q, spans))) == ShippedBy(d, q, r, spans)
  {
    if spans != [] {
      var span := spans[0];
      AnswerEvents(d, q, r, spans[1..]);
      AnswerItems(d, q, r, span);
      assert Live(d, q, spans)[1..] == Live(d, q, spans[1..]);
      var first := RespondItem(d, r)(LiveItem(d, q, span));
      FlatMapCons(RespondItem(d, r), Live(d, q, spans));
      FlatMapConcat(ItemEvents(r), first, FlatMap(RespondItem(d, r), Live(d, q, spans[1..])));
      if Differs(d, q, r, span) {
        if Leaf(r, span) {
          FlatMapOne(ItemEvents(r), first[0]);
          var a, b := Cut(r, span.lo), Cut(r, span.hi);
          EventsOfSlice(r, a, if b < a then a else b);
        } else {
          FlatMapTwo(ItemEvents(r), first[0], first[1]);
        }
      }
    }
  }

  lemma ReplyEventsAreShipped(d: DigestFn, q: Log, r: Log, request: Message, spans: seq<Span>)
    requires Asks(d, q, request, spans)
    ensures ReplyEvents(r, Respond(d, r, request)) == ShippedBy(d, q, r, spans)
  {
    ReplyItems(d, r, MinKey(), request.ranges);
    AnswerEvents(d, q, r, spans);
  }

  /** One round of the ingesting requester, whose log is `log`, beside the same
      round of the requester that keeps `q`. */
  lemma IngestRound(d: DigestFn, q: Log, log: Log, r: Log, request: Message, spans: seq<Span>, delivered: seq<Key>)
    requires Asks(d, log, request, spans) && Disjoint(spans) && SameOn(q, log, spans)
    requires forall k :: HasKey(log, k) <==> HasKey(q, k) || k in delivered
    ensures var log', live := Ingest(log, ShippedBy(d, log, r, spans)), Next(d, q, r, spans);
            var next := NextRequest(d, log', Respond(d, r, request));
            && (next.None? <==> live == [])
            && (live != [] ==>
                  Asks(d, log', next.value, live) && Disjoint(live) && SameOn(q, log', live)
                  && MaxCount(r, live) < MaxCount(r, spans))
            && (forall k :: HasKey(log', k) <==> HasKey(q, k) || k in delivered + Missing(d, q, r, spans))
  {
    var events := ShippedBy(d, log, r, spans);
    var log', live := Ingest(log, events), Next(d, q, r, spans);
    SameRound(d, q, log, r, spans);
    SplitsKeepLive(d, q, r, log, spans);
    NextDisjoint(d, q, r, spans);
    NextHalves(d, q, r, spans);
    forall i | 0 <= i < |spans| && Differs(d, log, r, spans[i]) && !Leaf(r, spans[i])
      ensures Slice(log, spans[i].lo, spans[i].hi) == Slice(log', spans[i].lo, spans[i].hi)
    {
      ShippedOutsideSplits(d, log, r, spans, i);
      IngestOutside(log, events, spans[i]);
    }
    SplitsKeepLive(d, log, r, log', spans);
    RoundRefines(d, log, r, log', request, spans);
    LiveSame(d, log, log', live);
    forall k ensures HasKey(log', k) <==> HasKey(q, k) || k in delivered + Missing(d, q, r, spans) {
      IngestKeys(log, events, k);
      ShippedKeys(d, log, r, spans, k);
    }
  }

  lemma LiveSame(d: DigestFn, a: Log, b: Log, spans: seq<Span>)
    requires SameOn(a, b, spans)
    ensures Live(d, a, spans) == Live(d, b, spans)
  {
    forall i | 0 <= i < |spans| ensures LiveItem(d, a, spans[i]) == LiveItem(d, b, spans[i]) {}
  }

  /** The production requester: the shipped events are in its log before it
      recomputes its fingerprints. It takes the same rounds as the requester that
      never ingests, and ends with its own keys and exactly the keys that the
      other run delivers. */
  method ReconcileIngesting(d: DigestFn, q: Log, r: Log) returns (rounds: nat, log: Log)
    ensures rounds == Run(d, q, r, [UNIVERSE]).rounds
    ensures forall k :: HasKey(log, k) <==> HasKey(q, k) || k in Run(d, q, r, [UNIVERSE]).acquired
    ensures CollisionFree(d, q, r, [UNIVERSE]) ==>
              forall k :: HasKey(log, k) <==> HasKey(q, k) || (HasKey(r, k) && Lt(k, MaxKey()))
  {
    hide Run, Missing, Next, MaxCount, Asks, Respond, NextRequest, MissingKeys, CollisionFree, HasKey, ShippedBy,
         Ingest, ReplyEvents;
    var request := InitialRequest(d, q);
    ghost var spans := [UNIVERSE];
    ghost var delivered: seq<Key> := [];
    ghost var total := Run(d, q, r, spans);
    rounds, log := 0, q;
    InitialAsks(d, q);
    MinBelowMax();
    assert delivered + total.acquired == total.acquired;
    while true
      invariant Asks(d, log, request, spans) && Disjoint(spans) && SameOn(q, log, spans)
      invariant total == RunResult(rounds + Run(d, q, r, spans).rounds, delivered + Run(d, q, r, spans).acquired)
      invariant forall k :: HasKey(log, k) <==> HasKey(q, k) || k in delivered
      decreases MaxCount(r, spans)
    {
      rounds := rounds + 1;
      var reply := RespondLoop(d, r, request);
      var events := ReplyEvents(r, reply);
      ReplyEventsAreShipped(d, log, r, request, spans);
      IngestRound(d, q, log, r, request, spans, delivered);
      RunUnfolds(d, q, r, spans);
      log := Ingest(log, events);
      var _, next := ProcessReplyLoop(d, log, reply);
      delivered := delivered + Missing(d, q, r, spans);
      match next {
        case None =>
          break;
        case Some(n) =>
          request := n;
          spans := Next(d, q, r, spans);
      }
    }
    if CollisionFree(d, q, r, [UNIVERSE]) {
      IngestedExactly(d, q, r, log);
    }
  }

  lemma IngestedExactly(d: DigestFn, q: Log, r: Log, log: Log)
    requires CollisionFree(d, q, r, [UNIVERSE])
    requires forall k :: HasKey(log, k) <==> HasKey(q, k) || k in Run(d, q, r, [UNIVERSE]).acquired
    ensures forall k :: HasKey(log, k) <==> HasKey(q, k) || (HasKey(r, k) && Lt(k, MaxKey()))
  {
    hide HasKey, CollisionFree, Run, Lt, MaxKey;
    var acquired := Run(d, q, r, [UNIVERSE]).acquired;
    ReconciliationExact(d, q, r);
    forall k ensures HasKey(log, k) <==> HasKey(q, k) || (HasKey(r, k) && Lt(k, MaxKey())) {
      assert k in acquired <==> multiset(acquired)[k] > 0;
    }
  }
}
