/** The content-defined chunk index over a sorted event set
    (`src-tauri/src/channel_chunk_index.rs`): it answers fingerprint queries from
    cached summaries and re-chunks only where an event lands. */
module ChunkIndexing {
  import opened Prelude
  import opened Fingerprint
  import opened ReconcileKey
  import opened Rbsr

  const CHUNK_MASK_BITS: nat := 8

  datatype ChunkSummary = ChunkSummary(first: Key, last: Key, count: nat, rawSum: Bytes32)

  /** The hash ends a chunk: the low CHUNK_MASK_BITS bits of its first eight
      bytes, read as a little-endian integer, are zero. */
  predicate IsBoundary(hash: Bytes32) {
    LeVal(hash[..8]) % Pow2(CHUNK_MASK_BITS) == 0
  }

  // ----- specification -----

  /** The length of the first chunk: up to and including the first boundary. */
  function ChunkLength(s: seq<Entry>): (n: nat)
    requires s != []
    ensures 1 <= n <= |s|
  {
    if IsBoundary(s[0].hash) || |s| == 1 then 1 else 1 + ChunkLength(s[1..])
  }

  function Summary(chunk: seq<Entry>): ChunkSummary
    requires chunk != []
  {
    var f := FoldAll(Hashes(chunk));
    ChunkSummary(chunk[0].key, chunk[|chunk| - 1].key, f.count, f.rawSum)
  }

  /** The summaries of the chunks that the boundaries cut `s` into. */
  function Build(s: seq<Entry>): seq<ChunkSummary> {
    if s == [] then []
    else
      var n := ChunkLength(s);
      [Summary(s[..n])] + Build(s[n..])
  }

  predicate EndsAtBoundary(s: seq<Entry>) {
    s == [] || IsBoundary(s[|s| - 1].hash)
  }

  predicate NoBoundary(s: seq<Entry>) {
    forall i :: 0 <= i < |s| ==> !IsBoundary(s[i].hash)
  }

  lemma {:induction false} ChunkLengthOpen(open_: seq<Entry>, rest: seq<Entry>)
    requires NoBoundary(open_) && open_ + rest != []
    ensures rest == [] ==> ChunkLength(open_ + rest) == |open_|
    ensures rest != [] && IsBoundary(rest[0].hash) ==> ChunkLength(open_ + rest) == |open_| + 1
  {
    if open_ != [] {
      var s := open_ + rest;
      assert s[1..] == open_[1..] + rest;
      if s[1..] != [] {
        ChunkLengthOpen(open_[1..], rest);
      }
    }
  }

  /** A chunk is cut off as soon as a boundary closes it. */
  lemma BuildCloses(open_: seq<Entry>, e: Entry, rest: seq<Entry>)
    requires NoBoundary(open_) && IsBoundary(e.hash)
    ensures Build(open_ + [e] + rest) == [Summary(open_ + [e])] + Build(rest)
  {
    var s := open_ + [e] + rest;
    assert s == open_ + ([e] + rest);
    ChunkLengthOpen(open_, [e] + rest);
    assert s[..|open_| + 1] == open_ + [e] && s[|open_| + 1..] == rest;
  }

  lemma BuildOpen(open_: seq<Entry>)
    requires NoBoundary(open_)
    ensures Build(open_) == if open_ == [] then [] else [Summary(open_)]
  {
    if open_ != [] {
      assert open_ + [] == open_;
      ChunkLengthOpen(open_, []);
      assert open_[..|open_|] == open_ && open_[|open_|..] == [];
    }
  }

  // ----- build_from_sorted -----

  /** The accumulator loop that cuts a chunk at every boundary. */
  method BuildFromSorted(entries: seq<Entry>) returns (chunks: seq<ChunkSummary>)
    ensures chunks == Build(entries)
  {
    hide Build, FoldAll, Fold, IsBoundary, Hashes, Summary;
    chunks := [];
    var acc := ZERO;
    var first: Option<Key> := None;
    var last: Option<Key> := None;
    ghost var pending: seq<Entry> := [];
    FoldNone();
    assert pending + entries[0..] == entries;
    for i := 0 to |entries|
      invariant NoBoundary(pending)
      invariant acc == FoldAll(Hashes(pending))
      invariant first == if pending == [] then None else Some(pending[0].key)
      invariant last == if pending == [] then None else Some(pending[|pending| - 1].key)
      invariant chunks + Build(pending + entries[i..]) == Build(entries)
    {
      var e := entries[i];
      BuildStep(chunks, pending, entries, i);
      FoldAppend(pending, e);
      FoldNone();
      SummaryFields(pending + [e]);
      if first.None? {
        first := Some(e.key);
      }
      acc := Fold(acc, e.hash);
      last := Some(e.key);
      if IsBoundary(e.hash) {
        chunks := chunks + [ChunkSummary(first.value, last.value, acc.count, acc.rawSum)];
        first, last, acc := None, None, ZERO;
        pending := [];
      } else {
        pending := pending + [e];
      }
    }
    assert pending + entries[|entries|..] == pending;
    BuildOpen(pending);
    if first.Some? {
      SummaryFields(pending);
      chunks := chunks + [ChunkSummary(first.value, last.value, acc.count, acc.rawSum)];
    }
  }

  lemma BuildStep(chunks: seq<ChunkSummary>, pending: seq<Entry>, entries: seq<Entry>, i: nat)
    requires i < |entries| && NoBoundary(pending)
    ensures var e, rest := entries[i], entries[i + 1..];
            && (IsBoundary(e.hash) ==>
                  chunks + Build(pending + entries[i..]) == (chunks + [Summary(pending + [e])]) + Build([] + rest))
            && (!IsBoundary(e.hash) ==>
                  chunks + Build(pending + entries[i..]) == chunks + Build((pending + [e]) + rest))
  {
    hide Build, Summary, IsBoundary;
    var e, rest := entries[i], entries[i + 1..];
    assert pending + entries[i..] == pending + [e] + rest;
    assert [] + rest == rest;
    if IsBoundary(e.hash) {
      BuildCloses(pending, e, rest);
      assert chunks + ([Summary(pending + [e])] + Build(rest)) == (chunks + [Summary(pending + [e])]) + Build(rest);
    }
  }

  lemma SummaryFields(s: seq<Entry>)
    requires s != []
    ensures Summary(s) == ChunkSummary(s[0].key, s[|s| - 1].key, FoldAll(Hashes(s)).count, FoldAll(Hashes(s)).rawSum)
  {
  }

  lemma FoldNone()
    ensures FoldAll(Hashes([])) == ZERO
  {
  }

  lemma FoldAppend(s: seq<Entry>, e: Entry)
    ensures FoldAll(Hashes(s + [e])) == Fold(FoldAll(Hashes(s)), e.hash)
  {
    assert Hashes(s + [e])[..|s|] == Hashes(s);
  }

  // ----- range_fingerprint -----

  /** The entries of `s` with a key in `[lo, hi)`. */
  function Filter(s: seq<Entry>, lo: Key, hi: Key): seq<Entry> {
    if s == [] then []
    else (if InRange(s[0].key, lo, hi) then [s[0]] else []) + Filter(s[1..], lo, hi)
  }

  lemma {:induction false} FilterConcat(a: seq<Entry>, b: seq<Entry>, lo: Key, hi: Key)
    ensures Filter(a + b, lo, hi) == Filter(a, lo, hi) + Filter(b, lo, hi)
  {
    if a == [] {
      assert a + b == b;
    } else {
      hide *;
      FilterConcat(a[1..], b, lo, hi);
      ConcatFirst(a, b);
      FilterCons(a + b, lo, hi);
      FilterCons(a, lo, hi);
      ConcatAssociates(if InRange(a[0].key, lo, hi) then [a[0]] else [], Filter(a[1..], lo, hi), Filter(b, lo, hi));
    }
  }

  lemma FilterCons(s: seq<Entry>, lo: Key, hi: Key)
    requires s != []
    ensures Filter(s, lo, hi) == (if InRange(s[0].key, lo, hi) then [s[0]] else []) + Filter(s[1..], lo, hi)
  {
  }

  lemma {:induction false} FilterEvery(s: seq<Entry>, lo: Key, hi: Key)
    requires forall i :: 0 <= i < |s| ==> InRange(s[i].key, lo, hi)
    ensures Filter(s, lo, hi) == s
  {
    if s != [] {
      assert forall i :: 0 < i < |s| ==> s[i] == s[1..][i - 1];
      FilterEvery(s[1..], lo, hi);
    }
  }

  lemma {:induction false} FilterNone(s: seq<Entry>, lo: Key, hi: Key)
    requires forall i :: 0 <= i < |s| ==> !InRange(s[i].key, lo, hi)
    ensures Filter(s, lo, hi) == []
  {
    if s != [] {
      assert forall i :: 0 < i < |s| ==> s[i] == s[1..][i - 1];
      FilterNone(s[1..], lo, hi);
    }
  }

  lemma FilterParts(s: Log, lo: Key, hi: Key, c: nat)
    requires c == (if Cut(s, hi) < Cut(s, lo) then Cut(s, lo) else Cut(s, hi))
    ensures Filter(s[..Cut(s, lo)], lo, hi) == []
    ensures Filter(s[Cut(s, lo)..c], lo, hi) == s[Cut(s, lo)..c]
    ensures Filter(s[c..], lo, hi) == []
  {
    CutPartitions(s, lo);
    CutPartitions(s, hi);
    hide Cut, Lt, Filter;
    FilterNone(s[..Cut(s, lo)], lo, hi);
    FilterEvery(s[Cut(s, lo)..c], lo, hi);
    FilterNone(s[c..], lo, hi);
  }

  /** On a sorted set the filter is the naive source's slice. */
  lemma FilterIsSlice(s: Log, lo: Key, hi: Key)
    ensures Filter(s, lo, hi) == Slice(s, lo, hi)
  {
    var a, b := Cut(s, lo), Cut(s, hi);
    var c := if b < a then a else b;
    assert Slice(s, lo, hi) == s[a..c];
    hide *;
    FilterParts(s, lo, hi, c);
    var x, y, z := s[..a], s[a..c], s[c..];
    ThreeParts(s, a, c);
    FilterConcat(x, y + z, lo, hi);
    FilterConcat(y, z, lo, hi);
  }

  lemma ThreeParts<T>(s: seq<T>, a: nat, c: nat)
    requires a <= c <= |s|
    ensures s == s[..a] + (s[a..c] + s[c..])
    ensures [] + (s[a..c] + []) == s[a..c]
  {
  }

  /** The number of leading entries at or below `k`. */
  function CutAfter(s: seq<Entry>, k: Key): (n: nat)
    ensures n <= |s|
  {
    if s == [] || Lt(k, s[0].key) then 0 else 1 + CutAfter(s[1..], k)
  }

  /** What the event reader returns for the inclusive span `[first, last]` of a log. */
  function Inclusive(s: seq<Entry>, first: Key, last: Key): seq<Entry> {
    var a, b := Cut(s, first), CutAfter(s, last);
    s[a..if b < a then a else b]
  }

  lemma {:induction false} CutAfterStops(s: seq<Entry>, k: Key)
    ensures forall i :: 0 <= i < CutAfter(s, k) ==> Le(s[i].key, k)
    ensures CutAfter(s, k) < |s| ==> Lt(k, s[CutAfter(s, k)].key)
  {
    if s != [] && Le(s[0].key, k) {
      CutAfterStops(s[1..], k);
      assert forall i :: 0 < i < |s| ==> s[i] == s[1..][i - 1];
    }
  }

  /** The span from one stored entry to another is the entries between them. */
  lemma InclusiveOfChunk(s: Log, a: nat, b: nat)
    requires a < b <= |s|
    ensures Inclusive(s, s[a].key, s[b - 1].key) == s[a..b]
  {
    CutOfMember(s, a);
    CutAfterStops(s, s[b - 1].key);
    var c := CutAfter(s, s[b - 1].key);
    assert b < |s| ==> Lt(s[b - 1].key, s[b].key);
    assert c > b ==> Le(s[b].key, s[b - 1].key);
    assert c < b ==> c == b - 1 || Lt(s[c].key, s[b - 1].key);
    LtTotal(s[b - 1].key, s[b - 1].key);
    if c < b {
      LtTotal(s[c].key, s[b - 1].key);
    }
  }

  type ChunkEventReader = (Key, Key) -> seq<Entry>

  /** The reader answers every chunk of the index from the log `s`. */
  predicate ReadsChunks(reader: ChunkEventReader, chunks: seq<ChunkSummary>, s: seq<Entry>) {
    forall i :: 0 <= i < |chunks| ==>
      reader(chunks[i].first, chunks[i].last) == Inclusive(s, chunks[i].first, chunks[i].last)
  }

  lemma BuildHead(s: Log, pos: nat)
    requires pos < |s|
    ensures var n := ChunkLength(s[pos..]);
            && Build(s[pos..]) == [Summary(s[pos..pos + n])] + Build(s[pos + n..])
            && Summary(s[pos..pos + n]).first == s[pos].key
            && Summary(s[pos..pos + n]).last == s[pos + n - 1].key
  {
    var n := ChunkLength(s[pos..]);
    hide Build, Summary, ChunkLength;
    BuildUnfolds(s[pos..]);
    SummaryFields(s[pos..pos + n]);
    SliceOfSlice(s, pos, n);
  }

  lemma SliceOfSlice<T>(s: seq<T>, pos: nat, n: nat)
    requires pos + n <= |s|
    ensures s[pos..][..n] == s[pos..pos + n] && s[pos..][n..] == s[pos + n..]
  {
  }

  class ChunkIndex {
    var chunks: seq<ChunkSummary>
    /** The event set that the index stands for. */
    ghost var log: Log

    ghost predicate Valid()
      reads this
    {
      chunks == Build(log)
    }

    constructor ()
      ensures Valid() && log == []
    {
      chunks, log := [], [];
    }

    /** `build_from_sorted` as a constructor. */
    constructor FromSorted(entries: Log)
      ensures Valid() && log == entries
    {
      var built := BuildFromSorted(entries);
      chunks, log := built, entries;
    }

    /** The indexed fingerprint equals the naive fold over the same set, for
        every pair of bounds, and reads the events of at most two chunks. */
    method RangeFingerprint(lo: Key, hi: Key, reader: ChunkEventReader)
      returns (agg: RangeFingerprint, ghost readCount: nat)
      requires Valid() && ReadsChunks(reader, chunks, log)
      ensures agg == RangeFp(log, lo, hi)
      ensures readCount <= 2
    {
      agg, readCount := ZERO, 0;
      ghost var pos: nat := 0;
      ghost var cutLo, cutHi := false, false;
      FoldedNone(log, lo, hi);
      assert log[0..] == log;
      hide Build, Summary, Folded, Lt, Inclusive, RangeFp;
      for i := 0 to |chunks|
        invariant pos <= |log| && chunks[i..] == Build(log[pos..])
        invariant agg == Folded(log, pos, lo, hi)
        invariant readCount <= (if cutLo then 1 else 0) + (if cutHi then 1 else 0)
        invariant cutLo ==> pos > 0 && Le(lo, log[pos - 1].key)
        invariant cutHi ==> pos > 0 && Le(hi, log[pos - 1].key)
      {
        var c := chunks[i];
        ghost var end := NextChunk(log, pos, chunks, i);
        CutsPersist(log, pos, end, lo, hi);
        ghost var read;
        agg, read := FoldChunk(agg, c, lo, hi, reader, log, pos, end);
        if read {
          readCount := readCount + 1;
          if Lt(c.first, lo) && Le(lo, c.last) {
            cutLo := true;
          } else {
            cutHi := true;
          }
        }
        pos := end;
      }
      BuildNonEmpty(log[pos..]);
      FoldedAll(log, lo, hi);
    }

    /** Inserting one event re-chunks only the chunk it lands in, and the result
        is the index that a full rebuild of the grown set would give: for a key
        in a gap, inside a chunk, past the end or already present, and for a
        reader that sees the log before or after the event is appended. */
    method Insert(key: Key, hash: Bytes32, reader: ChunkEventReader)
      requires Valid()
      requires ReadsChunks(reader, chunks, log)
            || ReadsChunks(reader, chunks, ReconcileKey.Insert(log, Entry(key, hash)))
      modifies this
      ensures Valid() && log == ReconcileKey.Insert(old(log), Entry(key, hash))
      ensures chunks == Build(log)
    {
      var e := Entry(key, hash);
      InsertSpec(log, e);
      BuildNonEmpty(log);
      InsertIntoNothing(log, e);
      hide Build, FromUnsorted, ReconcileKey.Insert, Inclusive, ChunkCut, Sorted, Lt;
      if chunks == [] {
        chunks := BuildFromSorted([e]);
        log := [e];
        return;
      }
      var idx := ChunkCut(chunks, key);
      if idx == |chunks| {
        idx := idx - 1;
      }
      var c := chunks[idx];
      var window := reader(c.first, c.last);
      window := FromUnsorted(window + [e]);
      var rebuilt := BuildFromSorted(window);
      InsertRechunks(log, e, idx, reader(c.first, c.last));
      chunks := chunks[..idx] + rebuilt + chunks[idx + 1..];
      log := ReconcileKey.Insert(log, e);
    }
  }

  lemma InsertIntoNothing(s: Log, e: Entry)
    ensures Sorted([e])
    ensures s == [] ==> ReconcileKey.Insert(s, e) == [e]
  {
  }

  /** The fold over those of the first `n` entries that lie in `[lo, hi)`. */
  function Folded(s: seq<Entry>, n: nat, lo: Key, hi: Key): RangeFingerprint
    requires n <= |s|
  {
    FoldAll(Hashes(Filter(s[..n], lo, hi)))
  }

  lemma FoldedNone(s: seq<Entry>, lo: Key, hi: Key)
    ensures Folded(s, 0, lo, hi) == ZERO
  {
    assert s[..0] == [] && Filter([], lo, hi) == [];
    FoldNone();
  }

  lemma FoldedAll(s: Log, lo: Key, hi: Key)
    ensures Folded(s, |s|, lo, hi) == RangeFp(s, lo, hi)
  {
    assert s[..|s|] == s;
    FilterIsSlice(s, lo, hi);
  }

  lemma NextChunk(s: Log, pos: nat, chunks: seq<ChunkSummary>, i: nat) returns (end: nat)
    requires pos <= |s| && i < |chunks| && chunks[i..] == Build(s[pos..])
    ensures pos < end <= |s| && chunks[i] == Summary(s[pos..end]) && chunks[i + 1..] == Build(s[end..])
    ensures chunks[i].first == s[pos].key && chunks[i].last == s[end - 1].key
  {
    hide Build, Summary, ChunkLength;
    BuildNonEmpty(s[pos..]);
    BuildHead(s, pos);
    end := pos + ChunkLength(s[pos..]);
    assert chunks[i..][0] == chunks[i] && chunks[i..][1..] == chunks[i + 1..];
  }

  /** The loop body: one chunk, combined from its summary or folded from its events. */
  method FoldChunk(agg: RangeFingerprint, c: ChunkSummary, lo: Key, hi: Key, reader: ChunkEventReader,
                   ghost s: Log, ghost a: nat, ghost b: nat)
    returns (agg': RangeFingerprint, ghost read: bool)
    requires a < b <= |s| && c == Summary(s[a..b]) && c.first == s[a].key && c.last == s[b - 1].key
    requires reader(c.first, c.last) == Inclusive(s, c.first, c.last)
    requires agg == Folded(s, a, lo, hi)
    ensures agg' == Folded(s, b, lo, hi)
    ensures read ==> (Lt(c.first, lo) && Le(lo, c.last)) || (Lt(c.first, hi) && Le(hi, c.last))
  {
    ChunkFacts(s, a, b, lo, hi);
    agg', read := agg, false;
    hide Build, Summary, Filter, FoldAll, Hashes, Lt, Inclusive, Combine;
    if Lt(c.last, lo) || Le(hi, c.first) {
    } else if Le(lo, c.first) && Lt(c.last, hi) {
      agg' := Combine(agg, RangeFingerprint(c.rawSum, c.count));
    } else {
      var events := reader(c.first, c.last);
      agg' := FoldEvents(agg, events, lo, hi);
      read := true;
    }
  }

  lemma BuildNonEmpty(s: seq<Entry>)
    ensures Build(s) == [] <==> s == []
  {
  }

  /** The three ways in which a chunk `s[a..b]` can lie relative to `[lo, hi)`,
      what it then contributes, and why a bound is reached only once. */
  lemma ChunkFacts(s: Log, a: nat, b: nat, lo: Key, hi: Key)
    requires a < b <= |s|
    ensures var chunk, first, last := s[a..b], s[a].key, s[b - 1].key;
            var before, after := FoldAll(Hashes(Filter(s[..a], lo, hi))), FoldAll(Hashes(Filter(s[..b], lo, hi)));
            && Inclusive(s, first, last) == chunk
            && (Lt(last, lo) || Le(hi, first) ==> after == before)
            && (Le(lo, first) && Lt(last, hi) ==>
                  after == Combine(before, RangeFingerprint(Summary(chunk).rawSum, Summary(chunk).count)))
            && after == Combine(before, FoldAll(Hashes(Filter(chunk, lo, hi))))
            && (a > 0 && Le(lo, s[a - 1].key) ==> Le(lo, last) && !Lt(first, lo))
            && (a > 0 && Le(hi, s[a - 1].key) ==> Le(hi, last) && Le(hi, first))
  {
    var chunk, first, last := s[a..b], s[a].key, s[b - 1].key;
    InclusiveOfChunk(s, a, b);
    FoldedChunk(s, a, b, lo, hi);
    CutsPersist(s, a, b, lo, hi);
    SummaryFields(chunk);
    ChunkFiltered(s, a, b, lo, hi);
    hide Filter, FoldAll, Hashes, Summary, Inclusive, Combine, Lt;
  }

  lemma ChunkFiltered(s: Log, a: nat, b: nat, lo: Key, hi: Key)
    requires a < b <= |s|
    ensures Lt(s[b - 1].key, lo) || Le(hi, s[a].key) ==> Filter(s[a..b], lo, hi) == []
    ensures Le(lo, s[a].key) && Lt(s[b - 1].key, hi) ==> Filter(s[a..b], lo, hi) == s[a..b]
  {
    hide Filter, Lt;
    if Lt(s[b - 1].key, lo) || Le(hi, s[a].key) {
      forall i | a <= i < b ensures !InRange(s[i].key, lo, hi) { Between(s, a, i, b, lo, hi); }
      FilterNone(s[a..b], lo, hi);
    }
    if Le(lo, s[a].key) && Lt(s[b - 1].key, hi) {
      forall i | a <= i < b ensures InRange(s[i].key, lo, hi) { Between(s, a, i, b, lo, hi); }
      FilterEvery(s[a..b], lo, hi);
    }
  }

  lemma Between(s: Log, a: nat, i: nat, b: nat, lo: Key, hi: Key)
    requires a <= i < b <= |s|
    ensures Lt(s[b - 1].key, lo) || Le(hi, s[a].key) ==> !InRange(s[i].key, lo, hi)
    ensures Le(lo, s[a].key) && Lt(s[b - 1].key, hi) ==> InRange(s[i].key, lo, hi)
  {
    assert a < i ==> Lt(s[a].key, s[i].key);
    assert i < b - 1 ==> Lt(s[i].key, s[b - 1].key);
    hide Lt;
    KeyOrder();
  }

  lemma FilterSplits(s: Log, a: nat, b: nat, lo: Key, hi: Key)
    requires a <= b <= |s|
    ensures Filter(s[..b], lo, hi) == Filter(s[..a], lo, hi) + Filter(s[a..b], lo, hi)
  {
    FilterConcat(s[..a], s[a..b], lo, hi);
    assert s[..b] == s[..a] + s[a..b];
  }

  lemma FoldedChunk(s: Log, a: nat, b: nat, lo: Key, hi: Key)
    requires a <= b <= |s|
    ensures var kept := Filter(s[a..b], lo, hi);
            var before, after := FoldAll(Hashes(Filter(s[..a], lo, hi))), FoldAll(Hashes(Filter(s[..b], lo, hi)));
            && after == Combine(before, FoldAll(Hashes(kept)))
            && (kept == [] ==> after == before)
  {
    var x, y := Filter(s[..a], lo, hi), Filter(s[a..b], lo, hi);
    FilterSplits(s, a, b, lo, hi);
    assert Hashes(x + y) == Hashes(x) + Hashes(y);
    FoldAllSplits(Hashes(x), Hashes(y));
    if y == [] {
      assert x + y == x;
    }
  }

  /** Once a chunk has reached a bound, no later chunk starts before that bound. */
  lemma CutsPersist(s: Log, a: nat, b: nat, lo: Key, hi: Key)
    requires a < b <= |s|
    ensures a > 0 && Le(lo, s[a - 1].key) ==> Le(lo, s[b - 1].key) && !Lt(s[a].key, lo)
    ensures a > 0 && Le(hi, s[a - 1].key) ==> Le(hi, s[b - 1].key) && Le(hi, s[a].key)
  {
    assert a > 0 ==> Lt(s[a - 1].key, s[a].key) && Lt(s[a - 1].key, s[b - 1].key);
    hide Lt;
    KeyOrder();
  }

  /** The fold over a partial chunk's events. */
  method FoldEvents(start: RangeFingerprint, events: seq<Entry>, lo: Key, hi: Key) returns (agg: RangeFingerprint)
    ensures agg == Combine(start, FoldAll(Hashes(Filter(events, lo, hi))))
  {
    agg := start;
    CombineZero(start);
    FoldNone();
    assert events[..0] == [] && Filter([], lo, hi) == [];
    hide Filter, FoldAll, Fold, Hashes, Combine, Lt;
    for i := 0 to |events|
      invariant agg == Combine(start, FoldAll(Hashes(Filter(events[..i], lo, hi))))
    {
      var e := events[i];
      FilterAppend(events, i, lo, hi);
      if Le(lo, e.key) && Lt(e.key, hi) {
        CombineFold(start, Filter(events[..i], lo, hi), e);
        agg := Fold(agg, e.hash);
      } else {
        assert Filter(events[..i], lo, hi) + [] == Filter(events[..i], lo, hi);
      }
    }
    assert events[..|events|] == events;
  }

  lemma CombineFold(start: RangeFingerprint, kept: seq<Entry>, e: Entry)
    ensures Combine(start, FoldAll(Hashes(kept + [e]))) == Fold(Combine(start, FoldAll(Hashes(kept))), e.hash)
  {
    var f := FoldAll(Hashes(kept));
    FoldAppend(kept, e);
    FoldIsCombine(f, e.hash);
    FoldIsCombine(Combine(start, f), e.hash);
    CombineAssociates(start, f, FoldAll([e.hash]));
  }

  lemma FilterAppend(s: seq<Entry>, i: nat, lo: Key, hi: Key)
    requires i < |s|
    ensures Filter(s[..i + 1], lo, hi)
         == Filter(s[..i], lo, hi) + if InRange(s[i].key, lo, hi) then [s[i]] else []
  {
    assert s[..i + 1] == s[..i] + [s[i]];
    FilterConcat(s[..i], [s[i]], lo, hi);
    assert [s[i]][1..] == [];
    assert Filter([s[i]][1..], lo, hi) == [];
  }

  // ----- insert -----

  /** `partition_point(|c| c.last < key)` over the chunk list. */
  function ChunkCut(chunks: seq<ChunkSummary>, key: Key): (n: nat)
    ensures n <= |chunks|
    ensures forall i :: 0 <= i < n ==> Lt(chunks[i].last, key)
    ensures n < |chunks| ==> Le(key, chunks[n].last)
  {
    if chunks == [] || !Lt(chunks[0].last, key) then 0 else 1 + ChunkCut(chunks[1..], key)
  }

  lemma SliceOfConcat<T>(a: seq<T>, b: seq<T>, n: nat)
    requires n <= |a|
    ensures (a + b)[..n] == a[..n] && (a + b)[n..] == a[n..] + b
  {
  }

  /** A closed prefix is chunked on its own. */
  lemma {:induction false} BuildConcat(a: seq<Entry>, b: seq<Entry>)
    requires EndsAtBoundary(a)
    ensures Build(a + b) == Build(a) + Build(b)
    decreases |a|
  {
    hide Build, Summary, EndsAtBoundary;
    if a == [] {
      BuildNonEmpty(a);
      assert a + b == b;
    } else {
      var head, tail := HeadExtends(a, b);
      BuildConcat(tail, b);
      ConcatAssociates([Summary(head)], Build(tail), Build(b));
    }
  }

  lemma HeadExtends(a: seq<Entry>, b: seq<Entry>) returns (head: seq<Entry>, tail: seq<Entry>)
    requires a != [] && EndsAtBoundary(a)
    ensures head != [] && |tail| < |a| && EndsAtBoundary(tail)
    ensures Build(a) == [Summary(head)] + Build(tail)
    ensures Build(a + b) == [Summary(head)] + Build(tail + b)
  {
    var n := ChunkLength(a);
    head, tail := a[..n], a[n..];
    ChunkLengthExtends(a, b);
    BuildUnfolds(a);
    BuildUnfolds(a + b);
    ClosedTail(a, n);
    hide Build, Summary, ChunkLength, EndsAtBoundary;
    SliceOfConcat(a, b, n);
  }

  lemma ClosedTail(a: seq<Entry>, n: nat)
    requires EndsAtBoundary(a) && n <= |a|
    ensures EndsAtBoundary(a[n..])
  {
    hide IsBoundary;
  }

  lemma {:induction false} ChunkLengthExtends(a: seq<Entry>, b: seq<Entry>)
    requires a != [] && EndsAtBoundary(a)
    ensures ChunkLength(a + b) == ChunkLength(a)
  {
    assert (a + b)[1..] == a[1..] + b;
    if !IsBoundary(a[0].hash) && |a| > 1 {
      ChunkLengthExtends(a[1..], b);
    }
  }

  lemma {:induction false} ChunkLengthEnds(s: seq<Entry>)
    requires s != []
    ensures ChunkLength(s) == |s| || IsBoundary(s[ChunkLength(s) - 1].hash)
  {
    if !IsBoundary(s[0].hash) && |s| > 1 {
      ChunkLengthEnds(s[1..]);
    }
  }

  /** Chunk `idx` of the set, with the closed part before it and the part after it. */
  lemma {:induction false} Locate(s: seq<Entry>, idx: nat)
    returns (pre: seq<Entry>, win: seq<Entry>, post: seq<Entry>)
    requires idx < |Build(s)|
    ensures s == pre + win + post && win != []
    ensures |Build(pre)| == idx && Build(s) == Build(pre) + [Summary(win)] + Build(post)
    ensures EndsAtBoundary(pre) && (post == [] || EndsAtBoundary(win))
    decreases |s|
  {
    hide Build, Summary, EndsAtBoundary;
    BuildNonEmpty(s);
    var head, tail := HeadChunk(s);
    if idx == 0 {
      pre, win, post := [], head, tail;
      ClosedNothing();
    } else {
      BuildNonEmpty(tail);
      var p, w, o := Locate(tail, idx - 1);
      pre, win, post := head + p, w, o;
      BuildConcat(head, p);
      ClosedConcat(head, p);
      Regroup(head, p, w, o);
      Regroup([Summary(head)], Build(p), [Summary(w)], Build(o));
    }
  }

  lemma HeadChunk(s: seq<Entry>) returns (head: seq<Entry>, tail: seq<Entry>)
    requires s != []
    ensures head != [] && s == head + tail
    ensures Build(s) == [Summary(head)] + Build(tail) && Build(head) == [Summary(head)]
    ensures tail == [] || EndsAtBoundary(head)
  {
    hide Build, Summary, IsBoundary, ChunkLength;
    var n := ChunkLength(s);
    head, tail := s[..n], s[n..];
    ChunkLengthEnds(s);
    ChunkLengthOfHead(s);
    BuildUnfolds(s);
    BuildWhole(head);
  }

  lemma ClosedNothing()
    ensures EndsAtBoundary([]) && Build([]) == []
  {
  }

  lemma ClosedConcat(a: seq<Entry>, b: seq<Entry>)
    requires EndsAtBoundary(a) && EndsAtBoundary(b)
    ensures EndsAtBoundary(a + b)
  {
    hide IsBoundary;
  }

  lemma Regroup<T>(a: seq<T>, b: seq<T>, c: seq<T>, d: seq<T>)
    ensures a + (b + c + d) == (a + b) + c + d
  {
  }

  lemma {:induction false} BuildLast(s: seq<Entry>)
    requires s != []
    ensures Build(s) != [] && Build(s)[|Build(s)| - 1].last == s[|s| - 1].key
    decreases |s|
  {
    hide Build, Summary, ChunkLength;
    var n := ChunkLength(s);
    BuildUnfolds(s);
    BuildNonEmpty(s[n..]);
    SummaryFields(s[..n]);
    if n < |s| {
      BuildLast(s[n..]);
    }
  }

  lemma {:induction false} ChunkLengthOfHead(s: seq<Entry>)
    requires s != []
    ensures ChunkLength(s[..ChunkLength(s)]) == ChunkLength(s)
  {
    var n := ChunkLength(s);
    if n > 1 {
      ChunkLengthOfHead(s[1..]);
      assert s[..n][1..] == s[1..][..n - 1];
    }
  }

  lemma BuildWhole(chunk: seq<Entry>)
    requires chunk != []
    ensures ChunkLength(chunk) == |chunk| ==> Build(chunk) == [Summary(chunk)]
  {
    if ChunkLength(chunk) == |chunk| {
      BuildUnfolds(chunk);
      assert chunk[..|chunk|] == chunk && chunk[|chunk|..] == [];
      BuildNonEmpty([]);
      hide Build, Summary;
    }
  }

  lemma BuildUnfolds(s: seq<Entry>)
    requires s != []
    ensures Build(s) == [Summary(s[..ChunkLength(s)])] + Build(s[ChunkLength(s)..])
  {
  }

  lemma {:induction false} CutConcat(a: seq<Entry>, b: seq<Entry>, k: Key)
    requires forall i :: 0 <= i < |a| ==> Lt(a[i].key, k)
    ensures Cut(a + b, k) == |a| + Cut(b, k)
  {
    if a == [] {
      assert a + b == b;
    } else {
      assert forall i :: 0 < i < |a| ==> a[i] == a[1..][i - 1];
      CutConcat(a[1..], b, k);
      assert (a + b)[1..] == a[1..] + b;
    }
  }

  lemma {:induction false} CutIgnores(a: seq<Entry>, b: seq<Entry>, k: Key)
    requires Cut(a, k) < |a| || b == []
    ensures Cut(a + b, k) == Cut(a, k)
  {
    if b == [] {
      assert a + b == a;
    } else if Lt(a[0].key, k) {
      CutIgnores(a[1..], b, k);
      assert (a + b)[1..] == a[1..] + b;
    }
  }

  /** Inserting into the set is inserting into the chunk that the key belongs to. */
  lemma InsertLocal(pre: seq<Entry>, win: seq<Entry>, post: seq<Entry>, e: Entry)
    requires forall i :: 0 <= i < |pre| ==> Lt(pre[i].key, e.key)
    requires win != [] && (post == [] || Le(e.key, win[|win| - 1].key))
    ensures ReconcileKey.Insert(pre + win + post, e) == pre + ReconcileKey.Insert(win, e) + post
    ensures post != [] ==>
              var grown := ReconcileKey.Insert(win, e); grown != [] && grown[|grown| - 1] == win[|win| - 1]
  {
    CutStops(win, e.key);
    hide Cut, Lt;
    var s, c := pre + win + post, Cut(win, e.key);
    ConcatAssociates(pre, win, post);
    CutConcat(pre, win + post, e.key);
    assert c < |win| || post == [];
    CutIgnores(win, post, e.key);
    SplitInside(pre, win, post, c);
    Splice(pre, win[..c], [e], win[c..], post);
    assert win[..c] + win[c..] == win;
  }

  lemma SplitInside<T>(pre: seq<T>, win: seq<T>, post: seq<T>, c: nat)
    requires c <= |win|
    ensures (pre + win + post)[..|pre| + c] == pre + win[..c]
    ensures (pre + win + post)[|pre| + c..] == win[c..] + post
    ensures c < |win| ==> (pre + win + post)[|pre| + c] == win[c]
  {
  }

  lemma Splice<T>(pre: seq<T>, a: seq<T>, m: seq<T>, b: seq<T>, post: seq<T>)
    ensures (pre + a) + m + (b + post) == pre + (a + m + b) + post
  {
  }

  lemma InclusiveMember(s: Log, first: Key, last: Key, x: Entry)
    ensures x in Inclusive(s, first, last) <==> x in s && Le(first, x.key) && Le(x.key, last)
    ensures Sorted(Inclusive(s, first, last))
  {
    var a, b := Cut(s, first), CutAfter(s, last);
    var c := if b < a then a else b;
    assert Inclusive(s, first, last) == s[a..c];
    hide Cut, CutAfter, Lt, Le, Inclusive;
    forall i | 0 <= i < |s| ensures a <= i < b <==> Le(first, s[i].key) && Le(s[i].key, last) {
      InsideCuts(s, first, last, i);
    }
    if x in s && Le(first, x.key) && Le(x.key, last) {
      var i :| 0 <= i < |s| && s[i] == x;
      assert s[a..c][i - a] == x;
    }
  }

  lemma InsideCuts(s: Log, first: Key, last: Key, i: nat)
    requires i < |s|
    ensures Cut(s, first) <= i < CutAfter(s, last) <==> Le(first, s[i].key) && Le(s[i].key, last)
  {
    CutPartitions(s, first);
    CutAfterPartitions(s, last);
    hide Cut, CutAfter, Lt;
  }

  lemma CutAfterPartitions(s: Log, k: Key)
    ensures forall i :: 0 <= i < CutAfter(s, k) ==> Le(s[i].key, k)
    ensures forall i :: CutAfter(s, k) <= i < |s| ==> Lt(k, s[i].key)
  {
    CutAfterStops(s, k);
    var c := CutAfter(s, k);
    forall i | c < i < |s| ensures Lt(k, s[i].key) {
      LtTrans(k, s[c].key, s[i].key);
    }
  }

  /** Whether the reader saw the log before or after the append, the window with
      the event pushed, sorted and deduplicated is the chunk with the event inserted. */
  lemma WindowAgrees(s: Log, e: Entry, pos: nat, end: nat, window: seq<Entry>)
    requires pos < end <= |s|
    requires var first, last := s[pos].key, s[end - 1].key;
             || window == Inclusive(s, first, last)
             || window == Inclusive(ReconcileKey.Insert(s, e), first, last)
    ensures FromUnsorted(window + [e]) == ReconcileKey.Insert(s[pos..end], e)
  {
    var first, last, win := s[pos].key, s[end - 1].key, s[pos..end];
    var s' := ReconcileKey.Insert(s, e);
    InsertSpec(s, e);
    InclusiveOfChunk(s, pos, end);
    InclusiveMember(s', first, last, e);
    assert Sorted(window);
    hide ReconcileKey.Insert, FromUnsorted, Inclusive, Lt;
    FromSortedIsSame(window);
    FromUnsortedPush(window, e);
    InsertSpec(window, e);
    InsertSpec(win, e);
    forall x ensures x in ReconcileKey.Insert(window, e) <==> x in ReconcileKey.Insert(win, e) {
      WindowMember(s, e, first, last, window, x);
    }
    SortedByMembers(ReconcileKey.Insert(window, e), ReconcileKey.Insert(win, e));
  }

  lemma WindowMember(s: Log, e: Entry, first: Key, last: Key, window: seq<Entry>, x: Entry)
    requires window == Inclusive(s, first, last) || window == Inclusive(ReconcileKey.Insert(s, e), first, last)
    requires Sorted(window)
    ensures x in ReconcileKey.Insert(window, e) <==> x in ReconcileKey.Insert(Inclusive(s, first, last), e)
  {
    var win, s' := Inclusive(s, first, last), ReconcileKey.Insert(s, e);
    InsertSpec(s, e);
    if HasKey(s, e.key) || window == win {
      assert window == win;
    } else {
      forall y ensures y in window <==> y in win || (y == e && Le(first, e.key) && Le(e.key, last)) {
        InclusiveMember(s, first, last, y);
        InclusiveMember(s', first, last, y);
      }
      InclusiveMember(s, first, last, e);
      NoKeyInside(s, win, e.key);
      InsertSpec(window, e);
      InsertSpec(win, e);
      if Le(first, e.key) && Le(e.key, last) {
        var i :| 0 <= i < |window| && window[i] == e;
        assert HasKey(window, e.key);
      } else {
        NoKeyInside(s, window, e.key);
      }
    }
  }

  lemma NoKeyInside(s: Log, part: seq<Entry>, k: Key)
    requires !HasKey(s, k) && forall x :: x in part ==> x in s
    ensures !HasKey(part, k)
  {
    forall i | 0 <= i < |part| ensures part[i].key != k {
      assert part[i] in part;
      var j :| 0 <= j < |s| && s[j] == part[i];
      assert s[j].key != k;
    }
  }

  lemma {:induction false} FromSortedIsSame(s: seq<Entry>)
    requires Sorted(s)
    ensures FromUnsorted(s) == s
  {
    if s != [] {
      var init, e := s[..|s| - 1], s[|s| - 1];
      assert s == init + [e];
      hide FromUnsorted, Lt, ReconcileKey.Insert;
      FromSortedIsSame(init);
      FromUnsortedPush(init, e);
      InsertLast(init, e);
    }
  }

  lemma FromUnsortedPush(s: seq<Entry>, e: Entry)
    ensures FromUnsorted(s + [e]) == ReconcileKey.Insert(FromUnsorted(s), e)
  {
    assert (s + [e])[..|s|] == s;
  }

  lemma InsertLast(s: seq<Entry>, e: Entry)
    requires forall i :: 0 <= i < |s| ==> Lt(s[i].key, e.key)
    ensures ReconcileKey.Insert(s, e) == s + [e]
  {
    assert s + [] == s;
    CutConcat(s, [], e.key);
    hide Cut, Lt;
    assert s[..|s|] + [e] + s[|s|..] == s + [e];
  }

  /** The chunk that `insert` picks is the only one that changes. */
  lemma InsertRechunks(s: Log, e: Entry, idx: nat, window: seq<Entry>)
    requires s != [] && idx < |Build(s)|
    requires var cut := ChunkCut(Build(s), e.key);
             idx == if cut == |Build(s)| then cut - 1 else cut
    requires var c := Build(s)[idx];
             || window == Inclusive(s, c.first, c.last)
             || window == Inclusive(ReconcileKey.Insert(s, e), c.first, c.last)
    ensures Build(ReconcileKey.Insert(s, e))
         == Build(s)[..idx] + Build(FromUnsorted(window + [e])) + Build(s)[idx + 1..]
  {
    hide Build, Summary, FoldAll, Hashes, Inclusive, IsBoundary, ReconcileKey.Insert, FromUnsorted, Lt, ChunkCut;
    var pre, win, post := Locate(s, idx);
    WindowOfChunk(s, e, pre, win, post, window);
    assert pre <= s && Build(pre) <= Build(s);
    BelowChunk(s, pre, e, idx);
    AtChunk(s, win, post, e, idx);
    RebuildAround(pre, win, post, e);
    SplitAt(Build(pre), Summary(win), Build(post), Build(s));
  }

  lemma SplitAt<T>(a: seq<T>, x: T, b: seq<T>, s: seq<T>)
    requires s == a + [x] + b
    ensures s[..|a|] == a && s[|a| + 1..] == b && s[|a|] == x
  {
  }

  lemma WindowOfChunk(s: Log, e: Entry, pre: seq<Entry>, win: seq<Entry>, post: seq<Entry>, window: seq<Entry>)
    requires s == pre + win + post && win != []
    requires var c := Summary(win);
             || window == Inclusive(s, c.first, c.last)
             || window == Inclusive(ReconcileKey.Insert(s, e), c.first, c.last)
    ensures FromUnsorted(window + [e]) == ReconcileKey.Insert(win, e)
  {
    var pos, end := |pre|, |pre| + |win|;
    SummaryFields(win);
    hide Summary, FoldAll, Hashes, Inclusive, ReconcileKey.Insert, FromUnsorted, Lt;
    assert s[pos..end] == win;
    assert s[pos] == win[0] && s[end - 1] == win[|win| - 1];
    WindowAgrees(s, e, pos, end, window);
  }

  lemma AtChunk(s: seq<Entry>, win: seq<Entry>, post: seq<Entry>, e: Entry, idx: nat)
    requires win != [] && idx < |Build(s)| && Build(s)[idx] == Summary(win)
    requires |Build(s)| == idx + 1 + |Build(post)|
    requires idx == ChunkCut(Build(s), e.key) || idx + 1 == |Build(s)|
    ensures post == [] || Le(e.key, win[|win| - 1].key)
  {
    BuildNonEmpty(post);
    SummaryFields(win);
  }

  lemma BelowChunk(s: Log, pre: seq<Entry>, e: Entry, idx: nat)
    requires pre <= s && idx <= ChunkCut(Build(s), e.key)
    requires |Build(pre)| == idx && Build(pre) <= Build(s)
    ensures forall i :: 0 <= i < |pre| ==> Lt(pre[i].key, e.key)
  {
    if pre != [] {
      hide Build, Lt, ChunkCut;
      BuildLast(pre);
      var last := pre[|pre| - 1].key;
      assert Build(pre)[idx - 1] == Build(s)[idx - 1];
      assert Lt(last, e.key);
      AllBelow(s, pre, e);
    }
  }

  lemma AllBelow(s: Log, pre: seq<Entry>, e: Entry)
    requires pre != [] && pre <= s && Lt(pre[|pre| - 1].key, e.key)
    ensures forall i :: 0 <= i < |pre| ==> Lt(pre[i].key, e.key)
  {
    hide Lt;
    forall i | 0 <= i < |pre| - 1 ensures Lt(pre[i].key, e.key) {
      assert Lt(s[i].key, s[|pre| - 1].key);
      LtTrans(pre[i].key, pre[|pre| - 1].key, e.key);
    }
  }

  /** Rebuilding the grown set rebuilds one chunk and keeps the others. */
  lemma RebuildAround(pre: seq<Entry>, win: seq<Entry>, post: seq<Entry>, e: Entry)
    requires EndsAtBoundary(pre) && win != [] && (post == [] || EndsAtBoundary(win))
    requires forall i :: 0 <= i < |pre| ==> Lt(pre[i].key, e.key)
    requires post == [] || Le(e.key, win[|win| - 1].key)
    ensures Build(ReconcileKey.Insert(pre + win + post, e))
         == Build(pre) + Build(ReconcileKey.Insert(win, e)) + Build(post)
  {
    InsertLocal(pre, win, post, e);
    var grown := ReconcileKey.Insert(win, e);
    hide ReconcileKey.Insert, Build, Lt, IsBoundary;
    BuildThree(pre, grown, post);
  }

  lemma BuildThree(pre: seq<Entry>, mid: seq<Entry>, post: seq<Entry>)
    requires EndsAtBoundary(pre) && (post == [] || EndsAtBoundary(mid))
    ensures Build(pre + mid + post) == Build(pre) + Build(mid) + Build(post)
  {
    BuildNonEmpty(post);
    hide Build, EndsAtBoundary;
    assert pre + mid + post == pre + (mid + post);
    BuildConcat(pre, mid + post);
    if post == [] {
      assert mid + post == mid;
    } else {
      BuildConcat(mid, post);
    }
  }

  // ----- canonical -----

  /** However events arrive, in whatever order and with whatever duplicates, the
      index that `Insert` maintains over them depends only on which events they are. */
  lemma IndexIsCanonical(es: seq<Entry>, fs: seq<Entry>)
    requires Consistent(es) && Consistent(fs) && forall e :: e in es <==> e in fs
    ensures FromUnsorted(es) == FromUnsorted(fs)
    ensures Build(FromUnsorted(es)) == Build(FromUnsorted(fs))
  {
    FromUnsortedSpec(es);
    FromUnsortedSpec(fs);
    forall x ensures x in FromUnsorted(es) <==> x in FromUnsorted(fs) {
      ConsistentMembers(es, x);
      ConsistentMembers(fs, x);
    }
    SortedByMembers(FromUnsorted(es), FromUnsorted(fs));
  }

  lemma {:induction false} ConsistentMembers(es: seq<Entry>, x: Entry)
    requires Consistent(es)
    ensures x in FromUnsorted(es) <==> x in es
  {
    if es != [] {
      var n := |es| - 1;
      var init, e := es[..n], es[n];
      assert FromUnsorted(es) == ReconcileKey.Insert(FromUnsorted(init), e);
      assert es == init + [e];
      hide FromUnsorted, ReconcileKey.Insert, HasKey, FirstWithKey, Sorted;
      TakenIsIn(es);
      ConsistentMembers(init, x);
      FromUnsortedSpec(init);
      InsertSpec(FromUnsorted(init), e);
    }
  }

  lemma TakenIsIn(es: seq<Entry>)
    requires Consistent(es) && es != []
    ensures var n := |es| - 1; Consistent(es[..n]) && (HasKey(es[..n], es[n].key) ==> es[n] in es[..n])
  {
    var n := |es| - 1;
    if HasKey(es[..n], es[n].key) {
      var i :| 0 <= i < n && es[..n][i].key == es[n].key;
      assert es[i] == es[n];
    }
  }
}
