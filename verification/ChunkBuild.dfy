/** Which chunks the chunk index makes of a set: one for every stretch between two
    boundaries (`src-tauri/src/channel_chunk_index.rs`). */
module ChunkBuild {
  import opened Prelude
  import opened Fingerprint
  import opened ReconcileKey
  import opened ChunkIndexing

  /** A hash ends a chunk exactly when its first byte is zero. */
  lemma BoundaryIsZeroByte(hash: Bytes32)
    ensures IsBoundary(hash) <==> hash[0] == 0
  {
    assert Pow2(4) == 16 && Pow2(8) == 256;
    var low := hash[..8];
    assert LeVal(low) == low[0] + 256 * LeVal(low[1..]);
    hide LeVal;
    ModOfSum(low[0], LeVal(low[1..]));
  }

  lemma ModOfSum(low: byte, high: nat)
    ensures (low + 256 * high) % 256 == low
  {
  }

  /** A chunk ends before position `p`: after a boundary, or at the end of the set. */
  predicate ChunkEnd(s: seq<Entry>, p: nat)
    requires 0 < p <= |s|
  {
    IsBoundary(s[p - 1].hash) || p == |s|
  }

  /** `ends` are the chunk ends after `k`, in order. */
  predicate EndsOf(s: seq<Entry>, k: nat, ends: seq<nat>) {
    && (forall i :: 0 <= i < |ends| ==> k < ends[i] <= |s|)
    && (forall i, j :: 0 <= i < j < |ends| ==> ends[i] < ends[j])
    && (forall p :: k < p <= |s| ==> (p in ends <==> ChunkEnd(s, p)))
  }

  /** Where stretch `i` starts. */
  function StartOf(k: nat, ends: seq<nat>, i: nat): nat
    requires i < |ends|
  {
    if i == 0 then k else ends[i - 1]
  }

  /** Chunk `c` is of the entries from `a` to `b`: their first and last key, their
      number, and the sum of their hashes modulo 2^256. */
  predicate Covers(s: seq<Entry>, a: nat, b: nat, c: ChunkSummary) {
    && a < b <= |s|
    && c.first == s[a].key && c.last == s[b - 1].key && c.count == b - a
    && LeVal(c.rawSum) == HashSum(Hashes(s[a..b])) % Pow256(32)
  }

  lemma {:induction false} ChunkLengthStops(s: seq<Entry>)
    requires s != []
    ensures ChunkEnd(s, ChunkLength(s)) && forall p :: 0 < p < ChunkLength(s) ==> !ChunkEnd(s, p)
  {
    if !IsBoundary(s[0].hash) && |s| > 1 {
      ChunkLengthStops(s[1..]);
      hide IsBoundary;
      forall p | 1 < p <= |s| ensures ChunkEnd(s, p) == ChunkEnd(s[1..], p - 1) {
        assert s[1..][p - 2] == s[p - 1];
      }
    }
  }

  lemma FirstChunk(s: seq<Entry>, k: nat) returns (end: nat)
    requires k < |s|
    ensures k < end <= |s| && ChunkEnd(s, end) && forall p :: k < p < end ==> !ChunkEnd(s, p)
    ensures Build(s[k..]) == [Summary(s[k..end])] + Build(s[end..])
  {
    hide *;
    var n := ChunkLength(s[k..]);
    end := k + n;
    ChunkLengthStops(s[k..]);
    BuildUnfolds(s[k..]);
    TailOfTail(s, k, n);
    SuffixEnd(s, k, end);
    forall p | k < p < end ensures !ChunkEnd(s, p) {
      SuffixEnd(s, k, p);
    }
  }

  lemma TailOfTail(s: seq<Entry>, k: nat, n: nat)
    requires k + n <= |s|
    ensures s[k..][n..] == s[k + n..] && s[k..][..n] == s[k..k + n]
  {
  }

  lemma SuffixEnd(s: seq<Entry>, k: nat, p: nat)
    requires k < p <= |s|
    ensures ChunkEnd(s, p) == ChunkEnd(s[k..], p - k)
  {
    hide IsBoundary;
    assert s[k..][p - k - 1] == s[p - 1];
  }

  lemma SummaryCovers(s: seq<Entry>, a: nat, b: nat)
    requires a < b <= |s|
    ensures Covers(s, a, b, Summary(s[a..b]))
  {
    hide Summary, FoldAll, HashSum, LeVal, Pow256, Hashes;
    var chunk := s[a..b];
    SummaryFields(chunk);
    FoldAllCounts(Hashes(chunk));
    FoldAllSums(Hashes(chunk));
    assert chunk[0] == s[a] && chunk[|chunk| - 1] == s[b - 1];
  }

  lemma EndsCons(s: seq<Entry>, k: nat, end: nat, rest: seq<nat>)
    requires k < end <= |s| && ChunkEnd(s, end) && forall p :: k < p < end ==> !ChunkEnd(s, p)
    requires EndsOf(s, end, rest)
    ensures EndsOf(s, k, [end] + rest)
  {
    hide ChunkEnd;
    forall p | k < p <= |s| ensures p in [end] + rest <==> ChunkEnd(s, p) {
    }
  }

  lemma {:induction false} BuildFrom(s: seq<Entry>, k: nat) returns (ends: seq<nat>)
    requires k <= |s|
    ensures EndsOf(s, k, ends) && |Build(s[k..])| == |ends|
    ensures forall i :: 0 <= i < |ends| ==> Covers(s, StartOf(k, ends, i), ends[i], Build(s[k..])[i])
    decreases |s| - k
  {
    if k == |s| {
      ends := [];
    } else {
      hide *;
      var end := FirstChunk(s, k);
      var rest := BuildFrom(s, end);
      EndsCons(s, k, end, rest);
      SummaryCovers(s, k, end);
      ends := [end] + rest;
      forall i | 0 <= i < |ends| ensures Covers(s, StartOf(k, ends, i), ends[i], Build(s[k..])[i]) {
        StartShifts(k, end, rest, i);
      }
    }
  }

  lemma StartShifts(k: nat, end: nat, rest: seq<nat>, i: nat)
    requires i <= |rest|
    ensures StartOf(k, [end] + rest, i) == if i == 0 then k else StartOf(end, rest, i - 1)
  {
  }

  /** The index of a set has one chunk for every stretch between two chunk ends, in
      order, each with its stretch's keys, count and hash sum. */
  lemma ChunksAreStretches(s: seq<Entry>) returns (ends: seq<nat>)
    ensures EndsOf(s, 0, ends) && |Build(s)| == |ends|
    ensures forall i :: 0 <= i < |ends| ==> Covers(s, StartOf(0, ends, i), ends[i], Build(s)[i])
  {
    ends := BuildFrom(s, 0);
    assert s[0..] == s;
  }
}
