/** Reconciliation keys, their total order, and sorted event sets with their
    half-open range queries (`src-tauri/src/channel_rbsr.rs`). */
module ReconcileKey {
  import opened Prelude

  /** `(wall_ms, logical, device_id, element_hash)`. A device id is the UTF-8
      bytes of the string, which is what Rust compares. */
  datatype Key = Key(wall: u64, logical: u32, device: seq<byte>, hash: Bytes32)

  /** One event: its key and the element hash that fingerprints fold. */
  datatype Entry = Entry(key: Key, hash: Bytes32)

  // ----- order -----

  /** Lexicographic order: a proper prefix comes first. */
  predicate LexLt(a: seq<byte>, b: seq<byte>) {
    b != [] && (a == [] || a[0] < b[0] || (a[0] == b[0] && LexLt(a[1..], b[1..])))
  }

  /** The derived tuple order on keys. */
  predicate Lt(a: Key, b: Key) {
    if a.wall != b.wall then a.wall < b.wall
    else if a.logical != b.logical then a.logical < b.logical
    else if a.device != b.device then LexLt(a.device, b.device)
    else LexLt(a.hash, b.hash)
  }

  predicate Le(a: Key, b: Key) {
    !Lt(b, a)
  }

  lemma {:induction false} LexTrans(a: seq<byte>, b: seq<byte>, c: seq<byte>)
    requires LexLt(a, b) && LexLt(b, c)
    ensures LexLt(a, c)
  {
    if a != [] && a[0] == b[0] == c[0] {
      LexTrans(a[1..], b[1..], c[1..]);
    }
  }

  lemma {:induction false} LexTotal(a: seq<byte>, b: seq<byte>)
    ensures LexLt(a, b) || a == b || LexLt(b, a)
    ensures !(LexLt(a, b) && LexLt(b, a))
    ensures a == b ==> !LexLt(a, b)
  {
    if a != [] && b != [] && a[0] == b[0] {
      LexTotal(a[1..], b[1..]);
      assert a == [a[0]] + a[1..] && b == [b[0]] + b[1..];
    }
  }

  lemma LtTrans(a: Key, b: Key, c: Key)
    requires Lt(a, b) && Lt(b, c)
    ensures Lt(a, c)
  {
    if a.device == c.device {
      LexTotal(a.device, b.device);
    }
    if LexLt(a.device, b.device) && LexLt(b.device, c.device) {
      LexTrans(a.device, b.device, c.device);
    }
    if LexLt(a.hash, b.hash) && LexLt(b.hash, c.hash) {
      LexTrans(a.hash, b.hash, c.hash);
    }
  }

  lemma LtTotal(a: Key, b: Key)
    ensures Lt(a, b) || a == b || Lt(b, a)
    ensures !(Lt(a, b) && Lt(b, a))
    ensures a == b ==> !Lt(a, b)
  {
    LexTotal(a.device, b.device);
    LexTotal(a.hash, b.hash);
  }

  /** Keys are strictly totally ordered. */
  lemma KeyOrder()
    ensures forall a, b, c {:trigger Lt(a, b), Lt(b, c)} :: Lt(a, b) && Lt(b, c) ==> Lt(a, c)
    ensures forall a, b {:trigger Lt(a, b)} :: Lt(a, b) ==> a != b && !Lt(b, a)
    ensures forall a, b {:trigger Lt(a, b)} :: Lt(a, b) || a == b || Lt(b, a)
  {
    forall a, b, c | Lt(a, b) && Lt(b, c) ensures Lt(a, c) {
      LtTrans(a, b, c);
    }
    forall a, b
      ensures Lt(a, b) ==> a != b && !Lt(b, a)
      ensures Lt(a, b) || a == b || Lt(b, a)
    {
      LtTotal(a, b);
    }
  }

  // ----- universe sentinels -----

  function MinKey(): Key {
    Key(0, 0, [], seq(32, _ => 0))
  }

  /** `"\u{10FFFF}"` repeated eight times, as UTF-8. */
  function MaxDevice(): seq<byte> {
    seq(32, i => if i % 4 == 0 then 0xF4 else if i % 4 == 1 then 0x8F else 0xBF)
  }

  function MaxKey(): Key {
    Key(U64_MAX, U32_MAX, MaxDevice(), seq(32, _ => 0xFF))
  }

  lemma {:induction false} ZerosLeast(n: nat, b: seq<byte>)
    requires |b| == n
    ensures !LexLt(b, seq(n, _ => 0))
  {
    if n > 0 {
      ZerosLeast(n - 1, b[1..]);
      assert seq<byte>(n, _ => 0)[1..] == seq<byte>(n - 1, _ => 0);
    }
  }

  /** The lower sentinel is below or equal to every key. */
  lemma MinKeyLeast(k: Key)
    ensures Le(MinKey(), k)
  {
    ZerosLeast(32, k.hash);
  }

  lemma MinBelowMax()
    ensures Lt(MinKey(), MaxKey())
  {
  }

  // ----- sorted event sets -----

  /** Strictly ascending by key, hence without duplicate keys. */
  predicate Sorted(s: seq<Entry>) {
    forall i, j :: 0 <= i < j < |s| ==> Lt(s[i].key, s[j].key)
  }

  /** What a `SliceSource` holds. */
  type Log = s: seq<Entry> | Sorted(s) witness []

  function Keys(s: seq<Entry>): (ks: seq<Key>)
    ensures |ks| == |s| && forall i :: 0 <= i < |s| ==> ks[i] == s[i].key
  {
    seq(|s|, i requires 0 <= i < |s| => s[i].key)
  }

  function Hashes(s: seq<Entry>): (hs: seq<Bytes32>)
    ensures |hs| == |s| && forall i :: 0 <= i < |s| ==> hs[i] == s[i].hash
  {
    seq(|s|, i requires 0 <= i < |s| => s[i].hash)
  }

  predicate InRange(k: Key, lo: Key, hi: Key) {
    Le(lo, k) && Lt(k, hi)
  }

  /** `partition_point(|x| x.key < k)`: the number of leading entries below `k`. */
  function Cut(s: seq<Entry>, k: Key): (n: nat)
    ensures n <= |s|
  {
    if s == [] || !Lt(s[0].key, k) then 0 else 1 + Cut(s[1..], k)
  }

  /** `SliceSource::slice`: empty on an inverted range rather than a panic. */
  function Slice(s: seq<Entry>, lo: Key, hi: Key): seq<Entry> {
    var a, b := Cut(s, lo), Cut(s, hi);
    s[a..if b < a then a else b]
  }

  lemma {:induction false} CutStops(s: seq<Entry>, k: Key)
    ensures forall i :: 0 <= i < Cut(s, k) ==> Lt(s[i].key, k)
    ensures Cut(s, k) < |s| ==> Le(k, s[Cut(s, k)].key)
  {
    if s != [] && Lt(s[0].key, k) {
      CutStops(s[1..], k);
      assert forall i :: 0 < i < |s| ==> s[i] == s[1..][i - 1];
    }
  }

  /** On a sorted list the entries below `k` are exactly those before the cut. */
  lemma CutPartitions(s: seq<Entry>, k: Key)
    requires Sorted(s)
    ensures forall i :: 0 <= i < Cut(s, k) ==> Lt(s[i].key, k)
    ensures forall i :: Cut(s, k) <= i < |s| ==> Le(k, s[i].key)
  {
    CutStops(s, k);
    KeyOrder();
  }

  lemma CutMonotone(s: seq<Entry>, a: Key, b: Key)
    requires Sorted(s) && Le(a, b)
    ensures Cut(s, a) <= Cut(s, b)
  {
    CutPartitions(s, a);
    CutPartitions(s, b);
    KeyOrder();
  }

  lemma SliceSorted(s: seq<Entry>, lo: Key, hi: Key)
    requires Sorted(s)
    ensures Sorted(Slice(s, lo, hi))
  {
  }

  /** A slice holds exactly the entries whose key lies in `[lo, hi)`. */
  lemma SliceMember(s: seq<Entry>, lo: Key, hi: Key, e: Entry)
    requires Sorted(s)
    ensures e in Slice(s, lo, hi) <==> e in s && InRange(e.key, lo, hi)
  {
    var a, b := Cut(s, lo), Cut(s, hi);
    var c := if b < a then a else b;
    assert Slice(s, lo, hi) == s[a..c];
    hide Cut, Lt, Slice, Sorted, InRange;
    forall i | 0 <= i < |s| ensures a <= i < b <==> InRange(s[i].key, lo, hi) {
      BetweenCuts(s, lo, hi, i);
    }
    if e in s && InRange(e.key, lo, hi) {
      var i :| 0 <= i < |s| && s[i] == e;
      assert s[a..c][i - a] == e;
    }
  }

  lemma BetweenCuts(s: seq<Entry>, lo: Key, hi: Key, i: nat)
    requires Sorted(s) && i < |s|
    ensures Cut(s, lo) <= i < Cut(s, hi) <==> InRange(s[i].key, lo, hi)
  {
    CutPartitions(s, lo);
    CutPartitions(s, hi);
    hide Cut, Lt, Sorted;
  }

  /** Splitting a range at an inner key splits its slice. */
  lemma SliceSplits(s: seq<Entry>, lo: Key, mid: Key, hi: Key)
    requires Sorted(s) && Le(lo, mid) && Le(mid, hi)
    ensures Slice(s, lo, hi) == Slice(s, lo, mid) + Slice(s, mid, hi)
  {
    CutMonotone(s, lo, mid);
    CutMonotone(s, mid, hi);
  }

  /** An ascending list without duplicates is determined by its members. */
  lemma {:induction false} SortedByMembers(a: seq<Entry>, b: seq<Entry>)
    requires Sorted(a) && Sorted(b)
    requires forall e :: e in a <==> e in b
    ensures a == b
  {
    KeyOrder();
    assert b != [] ==> b[0] in b;
    if a != [] {
      assert a[0] in a;
      assert a[0] == b[0];
      forall e ensures e in a[1..] <==> e in b[1..] {
        assert e in a <==> e == a[0] || e in a[1..];
        assert e in b <==> e == b[0] || e in b[1..];
      }
      SortedByMembers(a[1..], b[1..]);
    }
  }

  // ----- insertion -----

  predicate HasKey(s: seq<Entry>, k: Key) {
    exists i :: 0 <= i < |s| && s[i].key == k
  }

  /** Sorted insert that leaves an already present key alone, as the log's append does. */
  function Insert(s: seq<Entry>, e: Entry): seq<Entry> {
    var c := Cut(s, e.key);
    if c < |s| && s[c].key == e.key then s else s[..c] + [e] + s[c..]
  }

  lemma CutAtKey(s: seq<Entry>, e: Entry)
    requires Sorted(s)
    ensures var c := Cut(s, e.key); HasKey(s, e.key) <==> c < |s| && s[c].key == e.key
    ensures !HasKey(s, e.key) ==> forall i :: Cut(s, e.key) <= i < |s| ==> Lt(e.key, s[i].key)
  {
    CutPartitions(s, e.key);
    var c := Cut(s, e.key);
    forall i | 0 <= i < |s| && s[i].key == e.key ensures i == c {
      LtTotal(s[i].key, e.key);
      if c < i { LtTotal(s[c].key, s[i].key); }
    }
    forall i | c <= i < |s| && s[i].key != e.key ensures Lt(e.key, s[i].key) {
      LtTotal(s[i].key, e.key);
    }
  }

  lemma CutOfMember(s: Log, i: nat)
    requires i < |s|
    ensures Cut(s, s[i].key) == i
  {
    CutAtKey(s, s[i]);
    var c := Cut(s, s[i].key);
    assert HasKey(s, s[i].key);
    LtTotal(s[c].key, s[i].key);
  }

  /** Entries with one key are one entry. */
  predicate Consistent(es: seq<Entry>) {
    forall i, j :: 0 <= i < |es| && 0 <= j < |es| && es[i].key == es[j].key ==> es[i] == es[j]
  }

  /** Inserting keeps the order and adds exactly the new entry, unless its key is taken. */
  lemma InsertSpec(s: seq<Entry>, e: Entry)
    requires Sorted(s)
    ensures Sorted(Insert(s, e))
    ensures HasKey(s, e.key) ==> Insert(s, e) == s
    ensures forall x :: x in Insert(s, e) <==> x in s || (x == e && !HasKey(s, e.key))
  {
    CutAtKey(s, e);
    CutPartitions(s, e.key);
    if !HasKey(s, e.key) {
      var c := Cut(s, e.key);
      SplicedSorted(s[..c], e, s[c..]);
      assert s == s[..c] + s[c..];
      assert forall x :: x in s <==> x in s[..c] || x in s[c..];
    }
  }

  lemma SplicedSorted(a: seq<Entry>, e: Entry, b: seq<Entry>)
    requires Sorted(a) && Sorted(b)
    requires forall i :: 0 <= i < |a| ==> Lt(a[i].key, e.key)
    requires forall i :: 0 <= i < |b| ==> Lt(e.key, b[i].key)
    ensures Sorted(a + [e] + b)
  {
    var r := a + [e] + b;
    forall i, j | 0 <= i < j < |r| ensures Lt(r[i].key, r[j].key) {
      if i < |a| < j {
        LtTrans(a[i].key, e.key, b[j - |a| - 1].key);
      }
    }
  }

  /** Inserting in either order gives the same set when the keys differ. */
  lemma InsertCommutes(s: seq<Entry>, a: Entry, b: Entry)
    requires Sorted(s) && (a.key == b.key ==> a == b)
    ensures Insert(Insert(s, a), b) == Insert(Insert(s, b), a)
  {
    InsertSpec(s, a);
    InsertSpec(s, b);
    InsertSpec(Insert(s, a), b);
    InsertSpec(Insert(s, b), a);
    HasKeyAfterInsert(s, a, b.key);
    HasKeyAfterInsert(s, b, a.key);
    SortedByMembers(Insert(Insert(s, a), b), Insert(Insert(s, b), a));
  }

  lemma HasKeyAfterInsert(s: seq<Entry>, e: Entry, k: Key)
    requires Sorted(s)
    ensures HasKey(Insert(s, e), k) <==> HasKey(s, k) || k == e.key
  {
    InsertSpec(s, e);
    var r := Insert(s, e);
    if HasKey(r, k) {
      var i :| 0 <= i < |r| && r[i].key == k;
      assert r[i] in r;
    }
    if HasKey(s, k) {
      var i :| 0 <= i < |s| && s[i].key == k;
      assert s[i] in r;
    }
    if k == e.key && !HasKey(s, k) {
      assert e in r;
    }
  }

  /** `SliceSource::from_unsorted`: the stable sort followed by the dedup keeps,
      of several entries with one key, the first. */
  function FromUnsorted(entries: seq<Entry>): (s: seq<Entry>) {
    if entries == [] then [] else Insert(FromUnsorted(entries[..|entries| - 1]), entries[|entries| - 1])
  }

  /** `entries[i]` is the first entry with its key. */
  predicate FirstWithKey(entries: seq<Entry>, i: nat)
    requires i < |entries|
  {
    !HasKey(entries[..i], entries[i].key)
  }

  /** The source is sorted and holds exactly the first entry of every key. */
  lemma {:induction false} FromUnsortedSpec(entries: seq<Entry>)
    ensures Sorted(FromUnsorted(entries))
    ensures forall k :: HasKey(FromUnsorted(entries), k) <==> HasKey(entries, k)
    ensures forall x :: x in FromUnsorted(entries)
                   <==> exists i :: 0 <= i < |entries| && entries[i] == x && FirstWithKey(entries, i)
  {
    if entries != [] {
      var n := |entries| - 1;
      var init, e := entries[..n], entries[n];
      FromUnsortedSpec(init);
      var s := FromUnsorted(init);
      InsertSpec(s, e);
      hide Sorted, Insert, HasKey;
      forall k ensures HasKey(Insert(s, e), k) <==> HasKey(entries, k) {
        HasKeyAfterInsert(s, e, k);
        HasKeyInit(entries, k);
      }
      assert entries[..n] == init;
      hide FirstWithKey;
      forall x ensures x in Insert(s, e)
                  <==> exists i :: 0 <= i < |entries| && entries[i] == x && FirstWithKey(entries, i) {
        FirstOfMore(entries, x);
      }
    }
  }

  /** The first entries of their keys, when one more entry follows. */
  lemma FirstOfMore(entries: seq<Entry>, x: Entry)
    requires entries != []
    ensures var n := |entries| - 1;
            var init, e := entries[..n], entries[n];
            (exists i :: 0 <= i < |entries| && entries[i] == x && FirstWithKey(entries, i))
            <==> || (exists i :: 0 <= i < |init| && init[i] == x && FirstWithKey(init, i))
                 || (x == e && !HasKey(init, e.key))
  {
    var n := |entries| - 1;
    var init := entries[..n];
    hide HasKey;
    forall i | 0 <= i < n ensures FirstWithKey(init, i) == FirstWithKey(entries, i) && init[i] == entries[i] {
      assert init[..i] == entries[..i];
    }
    assert FirstWithKey(entries, n) <==> !HasKey(init, entries[n].key);
    hide FirstWithKey;
    if i :| 0 <= i < n && init[i] == x && FirstWithKey(init, i) {
      assert entries[i] == x && FirstWithKey(entries, i);
    }
    if i :| 0 <= i < |entries| && entries[i] == x && FirstWithKey(entries, i) {
      if i < n {
        assert init[i] == x && FirstWithKey(init, i);
      }
    }
  }

  lemma HasKeyInit(s: seq<Entry>, k: Key)
    requires s != []
    ensures HasKey(s, k) <==> HasKey(s[..|s| - 1], k) || s[|s| - 1].key == k
  {
    if HasKey(s, k) {
      var i :| 0 <= i < |s| && s[i].key == k;
      if i < |s| - 1 { assert s[..|s| - 1][i].key == k; }
    }
    if HasKey(s[..|s| - 1], k) {
      var i :| 0 <= i < |s| - 1 && s[..|s| - 1][i].key == k;
      assert s[i].key == k;
    }
  }
}
