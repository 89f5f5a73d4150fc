/** The address book over whole runs: bounds and non-interference in every
    reachable state, and the last-writer-wins store it refines. */
module AddressBookRun {
  import opened Prelude
  import opened AddressBook

  datatype Op =
    | Put(community: Id16, row: Row, nowMs: u64)
    | DropOwner(community: Id16, owner: Id16)
    | DropCommunity(community: Id16)
    | DropExpired(nowMs: u64)

  ghost function Step(m: Book, op: Op): Book {
    match op
    case Put(c, row, nowMs) => Upserted(m, c, row, nowMs).0
    case DropOwner(c, owner) => WithoutOwner(m, c, owner)
    case DropCommunity(c) => WithoutCommunity(m, c)
    case DropExpired(nowMs) => WithoutExpired(m, nowMs)
  }

  /** The book after the operations, from book `m`. */
  ghost function RunFrom(m: Book, ops: seq<Op>): Book {
    if ops == [] then m else Step(RunFrom(m, ops[..|ops| - 1]), ops[|ops| - 1])
  }

  // ----- bounds -----

  /** The largest admission clock any `upsert` saw. */
  function MaxClock(ops: seq<Op>): u64 {
    if ops == [] then 0
    else
      var before := MaxClock(ops[..|ops| - 1]);
      var op := ops[|ops| - 1];
      if op.Put? && op.nowMs > before then op.nowMs else before
  }

  ghost predicate Capped(m: Book) {
    && (forall c :: |KeysOf(m, c)| <= ADDRBOOK_MAX_ROWS)
    && (forall c, key :: |ClassKeys(m, c, key)| <= ClassCap(key))
  }

  predicate Labelled(m: Book) {
    forall k :: k in m ==> k.key == KeyForRow(m[k])
  }

  predicate StampedBy(m: Book, clock: u64) {
    forall k :: k in m ==> m[k].stampedAtMs <= SatAdd(clock, ADDRBOOK_SKEW_TOLERANCE_MS)
  }

  lemma FewerKeysCapped(m: Book, n: Book)
    requires Capped(m) && n.Keys <= m.Keys
    ensures Capped(n)
  {
    forall c ensures |KeysOf(n, c)| <= ADDRBOOK_MAX_ROWS {
      assert KeysOf(n, c) <= KeysOf(m, c);
      SubsetSize(KeysOf(n, c), KeysOf(m, c));
    }
    forall c, key ensures |ClassKeys(n, c, key)| <= ClassCap(key) {
      assert ClassKeys(n, c, key) <= ClassKeys(m, c, key);
      SubsetSize(ClassKeys(n, c, key), ClassKeys(m, c, key));
    }
  }

  /** Eviction makes room for one more row of the class and removes no other. */
  lemma EvictedRoom(m: Book, c: Id16, key: BookKey)
    requires |ClassKeys(m, c, key)| <= ClassCap(key)
    ensures Evicted(m, c, key).Keys <= m.Keys
    ensures |ClassKeys(Evicted(m, c, key), c, key)| < ClassCap(key)
  {
    var ks := ClassKeys(m, c, key);
    if |ks| >= ClassCap(key) {
      var o := OldestKey(m, ks);
      assert ClassKeys(m - {o}, c, key) == ks - {o};
    }
  }

  lemma InsertClass(m: Book, c: Id16, k: BookKey, row: Row, d: Id16, key: BookKey)
    ensures ClassKeys(m[MapKey(c, k) := row], d, key)
         == ClassKeys(m, d, key) + if d == c && SameClass(k, key) then {MapKey(c, k)} else {}
  {
  }

  lemma InsertKeys(m: Book, c: Id16, k: BookKey, row: Row, d: Id16)
    ensures KeysOf(m[MapKey(c, k) := row], d) == KeysOf(m, d) + if d == c then {MapKey(c, k)} else {}
  {
  }

  lemma SameClassSame(m: Book, c: Id16, k: BookKey, key: BookKey)
    requires SameClass(k, key)
    ensures ClassKeys(m, c, k) == ClassKeys(m, c, key) && ClassCap(k) == ClassCap(key)
  {
  }

  lemma InsertCapped(m: Book, c: Id16, k: BookKey, row: Row)
    requires Capped(m) && |KeysOf(m, c)| < ADDRBOOK_MAX_ROWS && |ClassKeys(m, c, k)| < ClassCap(k)
    ensures Capped(m[MapKey(c, k) := row])
  {
    var mk := MapKey(c, k);
    var n := m[mk := row];
    hide SameClass, ClassKeys, ClassCap, KeysOf;
    forall d ensures |KeysOf(n, d)| <= ADDRBOOK_MAX_ROWS {
      InsertKeys(m, c, k, row, d);
    }
    forall d, key ensures |ClassKeys(n, d, key)| <= ClassCap(key) {
      InsertClass(m, c, k, row, d, key);
      if d == c && SameClass(k, key) {
        SameClassSame(m, c, k, key);
      }
    }
  }

  lemma UpsertCapped(m: Book, c: Id16, row: Row, nowMs: u64)
    requires Capped(m)
    ensures Capped(Upserted(m, c, row, nowMs).0)
  {
    var r := Clamp(row, nowMs);
    var mk := MapKey(c, KeyForRow(r));
    var swept := Swept(m, c, nowMs);
    FewerKeysCapped(m, swept);
    if mk in swept {
      FewerKeysCapped(swept, swept[mk := r]);
    } else if |KeysOf(swept, c)| < ADDRBOOK_MAX_ROWS {
      var e := Evicted(swept, c, mk.key);
      EvictedRoom(swept, c, mk.key);
      FewerKeysCapped(swept, e);
      assert KeysOf(e, c) <= KeysOf(swept, c);
      SubsetSize(KeysOf(e, c), KeysOf(swept, c));
      InsertCapped(e, c, mk.key, r);
    }
  }

  /** In every state a run reaches: at most 4096 rows a community, at most 8 a
      member and class, every row under its own key, and no stamp above the
      largest clock any admission saw plus the tolerance. */
  lemma {:induction false} ReachableBounds(ops: seq<Op>)
    ensures Capped(RunFrom(map[], ops))
    ensures Labelled(RunFrom(map[], ops))
    ensures StampedBy(RunFrom(map[], ops), MaxClock(ops))
  {
    if ops == [] {
      forall c, key ensures KeysOf(map[], c) == {} && ClassKeys(map[], c, key) == {} {
      }
    } else {
      var before, op := ops[..|ops| - 1], ops[|ops| - 1];
      ReachableBounds(before);
      var m := RunFrom(map[], before);
      StepBounds(m, op, MaxClock(before), MaxClock(ops));
    }
  }

  lemma StepBounds(m: Book, op: Op, clock: u64, later: u64)
    requires Capped(m) && Labelled(m) && StampedBy(m, clock)
    requires clock <= later && (op.Put? ==> op.nowMs <= later)
    ensures Capped(Step(m, op)) && Labelled(Step(m, op)) && StampedBy(Step(m, op), later)
  {
    match op {
      case Put(c, row, nowMs) =>
        UpsertCapped(m, c, row, nowMs);
        hide Capped, KeysOf, ClassKeys;
      case _ =>
        FewerKeysCapped(m, Step(m, op));
    }
  }

  // ----- non-interference -----

  predicate EvictedUnexpired(m: Book, n: Book, nowMs: u64, k: MapKey) {
    k in m && k !in n && !Expired(m[k], nowMs)
  }

  /** Everything one upsert may touch: its own key, the community's expired
      rows, and at most one further row: on an insertion at the class cap, the
      oldest of the actor's own class. */
  lemma UpsertTouchesOnlyOwnRows(m: Book, c: Id16, row: Row, nowMs: u64)
    requires Labelled(m)
    ensures var n := Upserted(m, c, row, nowMs).0;
            var mk := MapKey(c, KeyForRow(row));
            && (forall k :: k in n && k != mk ==> k in m && n[k] == m[k] && !(k.community == c && Expired(m[k], nowMs)))
            && (mk in n ==> n[mk] == Clamp(row, nowMs) || (mk in m && n[mk] == m[mk]))
            && (forall k :: k in m && k !in n ==>
                  k.community == c && (Expired(m[k], nowMs) || SameClass(k.key, mk.key)))
    ensures var n := Upserted(m, c, row, nowMs).0;
            forall k, l :: EvictedUnexpired(m, n, nowMs, k) && EvictedUnexpired(m, n, nowMs, l) ==> k == l
    ensures var (n, outcome) := Upserted(m, c, row, nowMs);
            var swept := Swept(m, c, nowMs);
            var mine := ClassKeys(swept, c, KeyForRow(row));
            forall k :: EvictedUnexpired(m, n, nowMs, k) ==>
              outcome == Inserted && |mine| >= ClassCap(KeyForRow(row)) && IsOldest(swept, mine, k)
  {
    var swept := Swept(m, c, nowMs);
    var mk := MapKey(c, KeyForRow(row));
    assert KeyForRow(Clamp(row, nowMs)) == KeyForRow(row);
    var ks := ClassKeys(swept, c, mk.key);
    hide Clamp, KeyForRow;
  }

  /** An upsert by one member leaves every unexpired row of every other member,
      and every row of every other community, as it was. */
  predicate Harmless(op: Op, k: MapKey, row: Row) {
    match op
    case Put(c, r, nowMs) => c != k.community || (r.actor != k.key.actor && !Expired(row, nowMs))
    case DropOwner(c, owner) => c != k.community || owner != k.key.actor
    case DropCommunity(c) => c != k.community
    case DropExpired(nowMs) => !Expired(row, nowMs)
  }

  /** A row outlives any run of operations of other members and other
      communities, untouched, while no clock they carry is past its lifetime. */
  lemma {:induction false} OthersNeverTouch(m: Book, ops: seq<Op>, k: MapKey)
    requires Labelled(m) && k in m
    requires forall i :: 0 <= i < |ops| ==> Harmless(ops[i], k, m[k])
    ensures k in RunFrom(m, ops) && RunFrom(m, ops)[k] == m[k]
    ensures Labelled(RunFrom(m, ops))
  {
    if ops != [] {
      var before, op := ops[..|ops| - 1], ops[|ops| - 1];
      OthersNeverTouch(m, before, k);
      var n := RunFrom(m, before);
      assert Harmless(op, k, m[k]);
      if op.Put? {
        UpsertTouchesOnlyOwnRows(n, op.community, op.row, op.nowMs);
        assert MapKey(op.community, KeyForRow(op.row)) != k;
        LabelledKept(n, op.community, op.row, op.nowMs);
      }
    }
  }

  lemma LabelledKept(m: Book, c: Id16, row: Row, nowMs: u64)
    requires Labelled(m)
    ensures Labelled(Upserted(m, c, row, nowMs).0)
  {
    assert KeyForRow(Clamp(row, nowMs)) == KeyForRow(row);
  }

  // ----- last writer wins -----

  /** A history of upserts with non-decreasing clocks. */
  predicate ClockedPuts(hist: seq<Op>) {
    && (forall i :: 0 <= i < |hist| ==> hist[i].Put?)
    && (forall i, j :: 0 <= i < j < |hist| ==> hist[i].nowMs <= hist[j].nowMs)
  }

  function PutKey(op: Op): MapKey
    requires op.Put?
  {
    MapKey(op.community, KeyForRow(op.row))
  }

  function PutRow(op: Op): Row
    requires op.Put?
  {
    Clamp(op.row, op.nowMs)
  }

  /** The upsert finds its key unexpired, or room in both caps. */
  predicate RoomFor(m: Book, op: Op)
    requires op.Put?
  {
    var swept := Swept(m, op.community, op.nowMs);
    || PutKey(op) in swept
    || (&& |KeysOf(swept, op.community)| < ADDRBOOK_MAX_ROWS
        && |ClassKeys(swept, op.community, PutKey(op).key)| < ClassCap(PutKey(op).key))
  }

  ghost predicate CapFree(hist: seq<Op>) {
    forall i :: 0 <= i < |hist| && hist[i].Put? ==> RoomFor(RunFrom(map[], hist[..i]), hist[i])
  }

  /** The plain store: no sweep, no caps, the newest stamp wins and ties keep
      the earlier row. */
  function PlainPut(m: Book, op: Op): Book
    requires op.Put?
  {
    var k, r := PutKey(op), PutRow(op);
    if k in m && m[k].stampedAtMs >= r.stampedAtMs then m else m[k := r]
  }

  function PlainLww(hist: seq<Op>): Book
    requires ClockedPuts(hist)
  {
    if hist == [] then map[] else PlainPut(PlainLww(hist[..|hist| - 1]), hist[|hist| - 1])
  }

  /** `hist[i]` is the first upsert of its key with the greatest clamped stamp. */
  predicate FirstMaximum(hist: seq<Op>, k: MapKey, i: int)
    requires ClockedPuts(hist)
  {
    && 0 <= i < |hist| && PutKey(hist[i]) == k
    && (forall j :: 0 <= j < |hist| && PutKey(hist[j]) == k ==>
          PutRow(hist[j]).stampedAtMs <= PutRow(hist[i]).stampedAtMs)
    && (forall j :: 0 <= j < i && PutKey(hist[j]) == k ==>
          PutRow(hist[j]).stampedAtMs < PutRow(hist[i]).stampedAtMs)
  }

  predicate Written(hist: seq<Op>, k: MapKey)
    requires ClockedPuts(hist)
  {
    exists i :: 0 <= i < |hist| && PutKey(hist[i]) == k
  }

  lemma {:induction false} PlainLwwKeys(hist: seq<Op>, k: MapKey)
    requires ClockedPuts(hist)
    ensures k in PlainLww(hist) <==> Written(hist, k)
  {
    hide PutKey, PutRow;
    if hist != [] {
      var n := |hist| - 1;
      PlainLwwKeys(hist[..n], k);
      if Written(hist[..n], k) {
        var i :| 0 <= i < n && PutKey(hist[..n][i]) == k;
        assert PutKey(hist[i]) == k;
      }
      if Written(hist, k) && PutKey(hist[n]) != k {
        var i :| 0 <= i < |hist| && PutKey(hist[i]) == k;
        assert PutKey(hist[..n][i]) == k;
      }
    }
  }

  lemma {:induction false} Winner(hist: seq<Op>, k: MapKey) returns (i: nat)
    requires ClockedPuts(hist) && k in PlainLww(hist)
    ensures FirstMaximum(hist, k, i) && PlainLww(hist)[k] == PutRow(hist[i])
  {
    var n := |hist| - 1;
    var before, op := hist[..n], hist[n];
    hide PutKey, PutRow;
    if k !in PlainLww(before) {
      PlainLwwKeys(before, k);
      assert forall j :: 0 <= j < n ==> before[j] == hist[j];
      i := n;
    } else {
      i := Winner(before, k);
      if PutKey(op) == k && PutRow(before[i]).stampedAtMs < PutRow(op).stampedAtMs {
        assert forall j :: 0 <= j < n ==> before[j] == hist[j];
        i := n;
      } else {
        assert forall j :: 0 <= j < n ==> before[j] == hist[j];
      }
    }
  }

  /** The plain store holds, for each key ever written and no other, the first
      upsert that attains the key's maximum clamped stamp. */
  lemma PlainLwwIsFirstMaximum(hist: seq<Op>, k: MapKey)
    requires ClockedPuts(hist)
    ensures k in PlainLww(hist) <==> Written(hist, k)
    ensures Written(hist, k) ==> exists i :: FirstMaximum(hist, k, i) && PlainLww(hist)[k] == PutRow(hist[i])
  {
    PlainLwwKeys(hist, k);
    if Written(hist, k) {
      var i := Winner(hist, k);
    }
  }

  /** The swept store against the plain one at clock `now`, key by key: equal, or
      the plain row has expired and whatever is stored in its place is no newer. */
  predicate Tracks(m: Book, plain: Book, now: u64) {
    && (forall k :: k in m ==> k in plain)
    && (forall k :: k in plain ==>
          || (k in m && m[k] == plain[k])
          || (Expired(plain[k], now) && (k in m ==> m[k].stampedAtMs <= plain[k].stampedAtMs)))
  }

  /** A row's lifetime depends only on its key's class. */
  lemma SameKeySameTtl(a: Row, b: Row)
    requires KeyForRow(a) == KeyForRow(b)
    ensures RowTtlMs(a.entry) == RowTtlMs(b.entry)
  {
  }

  /** Without a cap in the way, an upsert is a sweep and a plain put. */
  lemma RoomyUpsert(m: Book, op: Op)
    requires op.Put? && RoomFor(m, op)
    ensures Step(m, op) == PlainPut(Swept(m, op.community, op.nowMs), op)
  {
    assert KeyForRow(PutRow(op)) == KeyForRow(op.row);
  }

  lemma TracksStep(m: Book, plain: Book, now: u64, op: Op)
    requires op.Put? && now <= op.nowMs && RoomFor(m, op)
    requires Tracks(m, plain, now) && Labelled(m) && Labelled(plain)
    ensures Tracks(Step(m, op), PlainPut(plain, op), op.nowMs)
    ensures Labelled(Step(m, op)) && Labelled(PlainPut(plain, op))
  {
    RoomyUpsert(m, op);
    SweepTracks(m, plain, now, op);
    hide RoomFor, Step, Tracks, PlainPut, Labelled, Swept;
    PutTracks(Swept(m, op.community, op.nowMs), plain, op);
  }

  /** What a sweep at the upsert's clock leaves of a key of its community is equal
      to the plain row; elsewhere the two still track. */
  predicate TracksSwept(swept: Book, plain: Book, op: Op)
    requires op.Put?
  {
    && (forall k :: k in swept ==> k in plain)
    && (forall k :: k in plain ==>
          || (k in swept && swept[k] == plain[k])
          || (Expired(plain[k], op.nowMs) && k !in swept)
          || (&& Expired(plain[k], op.nowMs) && k.community != op.community
              && swept[k].stampedAtMs <= plain[k].stampedAtMs))
  }

  lemma SweepTracks(m: Book, plain: Book, now: u64, op: Op)
    requires op.Put? && now <= op.nowMs && Tracks(m, plain, now) && Labelled(m) && Labelled(plain)
    ensures TracksSwept(Swept(m, op.community, op.nowMs), plain, op)
    ensures Labelled(Swept(m, op.community, op.nowMs))
  {
    forall k | k in plain && k in m ensures RowTtlMs(m[k].entry) == RowTtlMs(plain[k].entry) {
      SameKeySameTtl(m[k], plain[k]);
    }
    hide KeyForRow, RowTtlMs;
  }

  lemma PutTracks(swept: Book, plain: Book, op: Op)
    requires op.Put? && TracksSwept(swept, plain, op) && Labelled(swept) && Labelled(plain)
    ensures Tracks(PlainPut(swept, op), PlainPut(plain, op), op.nowMs)
    ensures Labelled(PlainPut(swept, op)) && Labelled(PlainPut(plain, op))
  {
    assert KeyForRow(PutRow(op)) == KeyForRow(op.row);
    hide Clamp, KeyForRow, Expired;
  }

  lemma {:induction false} TracksRun(hist: seq<Op>)
    requires ClockedPuts(hist) && CapFree(hist)
    ensures Tracks(RunFrom(map[], hist), PlainLww(hist), if hist == [] then 0 else hist[|hist| - 1].nowMs)
    ensures Labelled(RunFrom(map[], hist)) && Labelled(PlainLww(hist))
  {
    if hist != [] {
      var n := |hist| - 1;
      var before, op := hist[..n], hist[n];
      forall i | 0 <= i < |before| ensures before[..i] == hist[..i] {
      }
      TracksRun(before);
      TracksStep(RunFrom(map[], before), PlainLww(before), if before == [] then 0 else before[n - 1].nowMs, op);
    }
  }

  // ----- reading -----

  function FreshAmong(m: Book, s: set<MapKey>, t: u64): set<MapKey> {
    set k | k in s && k in m && !Expired(m[k], t)
  }

  function FreshKeys(m: Book, c: Id16, t: u64): set<MapKey> {
    FreshAmong(m, KeysOf(m, c), t)
  }

  function RowsAt(m: Book, ks: seq<MapKey>): seq<Row>
    requires forall k :: k in ks ==> k in m
  {
    if ks == [] then [] else [m[ks[0]]] + RowsAt(m, ks[1..])
  }

  /** Filtering the ordered scan is scanning the filtered keys in order. */
  lemma {:induction false} FilterThenOrder(m: Book, s: set<MapKey>, t: u64)
    requires s <= m.Keys
    ensures FreshRows(m, Ascending(s), t) == RowsAt(m, Ascending(FreshAmong(m, s, t)))
    decreases |s|
  {
    var live := FreshAmong(m, s, t);
    if s != {} {
      var k := LeastKey(s);
      var rest := s - {k};
      FilterThenOrder(m, rest, t);
      assert Ascending(s)[0] == k && Ascending(s)[1..] == Ascending(rest);
      hide Expired, Lt;
      if Expired(m[k], t) {
        assert live == FreshAmong(m, rest, t);
      } else {
        assert IsLeast(k, live);
        LeastUnique(k, LeastKey(live), live);
        assert live - {k} == FreshAmong(m, rest, t);
        assert Ascending(live)[1..] == Ascending(live - {k});
      }
    }
  }

  lemma {:induction false} RowsAtSame(m: Book, n: Book, ks: seq<MapKey>)
    requires forall k :: k in ks ==> k in m && k in n && m[k] == n[k]
    ensures RowsAt(m, ks) == RowsAt(n, ks)
  {
    if ks != [] {
      RowsAtSame(m, n, ks[1..]);
    }
  }

  lemma FreshRowsOfIs(m: Book, c: Id16, t: u64)
    ensures FreshRowsOf(m, c, t) == RowsAt(m, Ascending(FreshKeys(m, c, t)))
  {
    FilterThenOrder(m, KeysOf(m, c), t);
  }

  lemma TracksReads(m: Book, plain: Book, now: u64, c: Id16, t: u64)
    requires Tracks(m, plain, now) && Labelled(m) && Labelled(plain) && now <= t
    ensures FreshRowsOf(m, c, t) == FreshRowsOf(plain, c, t)
  {
    forall k | k in plain
      ensures k in FreshKeys(m, c, t) <==> k in FreshKeys(plain, c, t)
      ensures k in FreshKeys(m, c, t) ==> m[k] == plain[k]
    {
      if k in m {
        SameKeySameTtl(m[k], plain[k]);
      }
    }
    assert FreshKeys(m, c, t) == FreshKeys(plain, c, t);
    FreshRowsOfIs(m, c, t);
    FreshRowsOfIs(plain, c, t);
    RowsAtSame(m, plain, Ascending(FreshKeys(m, c, t)));
  }

  /** The write-side sweep is invisible: on a history of upserts with a
      non-decreasing clock that meets no cap, every later read returns what the
      plain last-writer-wins store would, in the same order. */
  lemma SweptStoreRefinesLww(hist: seq<Op>, c: Id16, t: u64)
    requires ClockedPuts(hist) && CapFree(hist)
    requires hist != [] ==> hist[|hist| - 1].nowMs <= t
    ensures FreshRowsOf(RunFrom(map[], hist), c, t) == FreshRowsOf(PlainLww(hist), c, t)
  {
    TracksRun(hist);
    TracksReads(RunFrom(map[], hist), PlainLww(hist), if hist == [] then 0 else hist[|hist| - 1].nowMs, c, t);
  }
}
