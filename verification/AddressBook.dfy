/** The community address book: a last-writer-wins row store with a write-side
    TTL sweep, a community cap and per-member caps
    (`src-tauri/src/community_address_book.rs`). */
module AddressBook {
  import opened Prelude

  const ADDRBOOK_MAX_NODES_PER_MEMBER := 8
  const ADDRBOOK_MAX_RELAYS_PER_MEMBER := 8
  const ADDRBOOK_MAX_ROWS := 4096
  const ADDRBOOK_SKEW_TOLERANCE_MS := 300_000
  const ADDRBOOK_REACHABILITY_TTL_MS := 86_400_000
  const COMMUNITY_RELAY_AD_FRESHNESS_MS := 900_000

  /** 32-byte identifiers, as the big-endian integers they compare like. */
  type Id32 = x: int | 0 <= x < 0x1_0000_0000_0000_0000_0000_0000_0000_0000_0000_0000_0000_0000_0000_0000_0000_0000

  datatype BookKey = Reachability(actor: Id16, node: Id32) | Relay(actor: Id16, relayDevice: Id16)

  datatype BookEntry =
    | ReachabilityEntry(node: Id32, body: seq<byte>)
    | RelayEntry(relayDevice: Id16, body: seq<byte>)

  datatype Row = Row(entry: BookEntry, actor: Id16, device: Id32, at: Hlc, stampedAtMs: u64)

  datatype UpsertOutcome = Inserted | Replaced | IgnoredOlder | IgnoredCapped

  datatype MapKey = MapKey(community: Id16, key: BookKey)

  type Book = map<MapKey, Row>

  function KeyForRow(row: Row): BookKey {
    match row.entry
    case ReachabilityEntry(node, _) => Reachability(row.actor, node)
    case RelayEntry(device, _) => Relay(row.actor, device)
  }

  function RowTtlMs(entry: BookEntry): u64 {
    if entry.ReachabilityEntry? then ADDRBOOK_REACHABILITY_TTL_MS else COMMUNITY_RELAY_AD_FRESHNESS_MS
  }

  predicate Expired(row: Row, nowMs: u64) {
    SatSub(nowMs, row.stampedAtMs) > RowTtlMs(row.entry)
  }

  // ----- key order and ordered iteration -----

  /** The derived order: community, then variant, then the variant's fields. */
  predicate Lt(a: MapKey, b: MapKey) {
    if a.community != b.community then a.community < b.community
    else if a.key.Reachability? != b.key.Reachability? then a.key.Reachability?
    else if a.key.actor != b.key.actor then a.key.actor < b.key.actor
    else if a.key.Reachability? then a.key.node < b.key.node
    else a.key.relayDevice < b.key.relayDevice
  }

  lemma LtTotal(a: MapKey, b: MapKey)
    ensures Lt(a, b) || a == b || Lt(b, a)
    ensures !(Lt(a, b) && Lt(b, a))
    ensures a == b ==> !Lt(a, b)
  {
  }

  predicate IsLeast(k: MapKey, s: set<MapKey>) {
    k in s && forall x :: x in s ==> !Lt(x, k)
  }

  lemma {:induction false} LeastExists(s: set<MapKey>)
    requires s != {}
    ensures exists k :: IsLeast(k, s)
    decreases |s|
  {
    var k :| k in s;
    var rest := s - {k};
    if rest == {} {
      assert s == {k};
      assert IsLeast(k, s);
    } else {
      LeastExists(rest);
      var m :| IsLeast(m, rest);
      LtTotal(k, m);
      var least := if Lt(k, m) then k else m;
      forall x | x in s ensures !Lt(x, least) {
        LtTotal(x, k);
        LtTotal(x, m);
        if x != k { assert x in rest; }
      }
      assert IsLeast(least, s);
    }
  }

  lemma LeastUnique(a: MapKey, b: MapKey, s: set<MapKey>)
    requires IsLeast(a, s) && IsLeast(b, s)
    ensures a == b
  {
    LtTotal(a, b);
  }

  function LeastKey(s: set<MapKey>): (k: MapKey)
    requires s != {}
    ensures IsLeast(k, s)
  {
    LeastExists(s);
    assert forall a, b :: IsLeast(a, s) && IsLeast(b, s) ==> a == b by {
      forall a, b | IsLeast(a, s) && IsLeast(b, s) ensures a == b { LeastUnique(a, b, s); }
    }
    var k :| k in s && IsLeast(k, s);
    k
  }

  /** The order in which a `BTreeMap` with these keys iterates. */
  function Ascending(s: set<MapKey>): (ks: seq<MapKey>)
    ensures |ks| == |s| && forall k :: k in ks <==> k in s
    decreases |s|
  {
    if s == {} then []
    else
      var k := LeastKey(s);
      [k] + Ascending(s - {k})
  }

  /** Below every key of its community: the seed of every range scan. */
  function CommunityFloor(c: Id16): MapKey {
    MapKey(c, Reachability(0, 0))
  }

  function TakeWhileCommunity(ks: seq<MapKey>, c: Id16): seq<MapKey> {
    if ks == [] || ks[0].community != c then [] else [ks[0]] + TakeWhileCommunity(ks[1..], c)
  }

  /** `range(community_floor(c)..).take_while(same community)`. */
  function Scan(m: Book, c: Id16): seq<MapKey> {
    TakeWhileCommunity(Ascending(set k | k in m && !Lt(k, CommunityFloor(c))), c)
  }

  function KeysOf(m: Book, c: Id16): set<MapKey> {
    set k | k in m && k.community == c
  }

  function InCommunity(s: set<MapKey>, c: Id16): set<MapKey> {
    set k | k in s && k.community == c
  }

  /** Past the floor, a least key of another community leaves none of this one. */
  lemma ForeignLeast(s: set<MapKey>, c: Id16, k: MapKey)
    requires IsLeast(k, s) && !Lt(k, CommunityFloor(c)) && k.community != c
    ensures InCommunity(s, c) == {}
  {
    forall x | x in s ensures x.community != c {
      assert !Lt(x, k);
    }
  }

  lemma {:induction false} TakeWhileOfAscending(s: set<MapKey>, c: Id16)
    requires forall k :: k in s ==> !Lt(k, CommunityFloor(c))
    ensures TakeWhileCommunity(Ascending(s), c) == Ascending(InCommunity(s, c))
    decreases |s|
  {
    hide Lt, CommunityFloor;
    var mine := InCommunity(s, c);
    if s == {} {
      assert mine == {};
    } else {
      var k := LeastKey(s);
      var rest := s - {k};
      TakeWhileOfAscending(rest, c);
      AscendingStep(s);
      if k.community == c {
        assert IsLeast(k, mine);
        LeastUnique(k, LeastKey(mine), mine);
        AscendingStep(mine);
        assert mine - {k} == InCommunity(rest, c);
      } else {
        ForeignLeast(s, c, k);
      }
    }
  }

  lemma AscendingStep(s: set<MapKey>)
    requires s != {}
    ensures Ascending(s) != [] && Ascending(s)[0] == LeastKey(s) && Ascending(s)[1..] == Ascending(s - {LeastKey(s)})
  {
  }

  /** The floor-seeded prefix scan visits exactly one community's keys, in order. */
  lemma ScanIsFilter(m: Book, c: Id16)
    ensures Scan(m, c) == Ascending(KeysOf(m, c))
    ensures forall k :: k in Scan(m, c) <==> k in m && k.community == c
    ensures |Scan(m, c)| == |KeysOf(m, c)|
  {
    var s := set k | k in m && !Lt(k, CommunityFloor(c));
    TakeWhileOfAscending(s, c);
    assert InCommunity(s, c) == KeysOf(m, c);
  }

  lemma {:induction false} AscendingOrdered(s: set<MapKey>, i: nat, j: nat)
    requires i < j < |s|
    ensures Lt(Ascending(s)[i], Ascending(s)[j])
    decreases |s|
  {
    hide Ascending, Lt;
    var k := LeastKey(s);
    var rest := s - {k};
    AscendingStep(s);
    if i == 0 {
      assert Ascending(s)[j] == Ascending(rest)[j - 1];
      assert Ascending(rest)[j - 1] in rest;
      LtTotal(k, Ascending(rest)[j - 1]);
    } else {
      AscendingOrdered(rest, i - 1, j - 1);
    }
  }

  // ----- specification of upsert -----

  /** `upsert` clamps the stamp to the admission clock plus the tolerance. */
  function Clamp(row: Row, nowMs: u64): Row {
    var limit := SatAdd(nowMs, ADDRBOOK_SKEW_TOLERANCE_MS);
    row.(stampedAtMs := if row.stampedAtMs <= limit then row.stampedAtMs else limit)
  }

  function Swept(m: Book, c: Id16, nowMs: u64): Book {
    map k | k in m && !(k.community == c && Expired(m[k], nowMs)) :: m[k]
  }

  /** The actor's keys of one class. */
  predicate SameClass(k: BookKey, key: BookKey) {
    k.actor == key.actor && (k.Reachability? <==> key.Reachability?)
  }

  function ClassKeys(m: Book, c: Id16, key: BookKey): set<MapKey> {
    set k | k in m && k.community == c && SameClass(k.key, key)
  }

  function ClassCap(key: BookKey): nat {
    if key.Reachability? then ADDRBOOK_MAX_NODES_PER_MEMBER else ADDRBOOK_MAX_RELAYS_PER_MEMBER
  }

  /** Row `a` is evicted in preference to row `b`: an older stamp, or the same
      stamp and an earlier key. */
  predicate Older(m: Book, a: MapKey, b: MapKey)
    requires a in m && b in m
  {
    m[a].stampedAtMs < m[b].stampedAtMs || (m[a].stampedAtMs == m[b].stampedAtMs && !Lt(b, a))
  }

  predicate IsOldest(m: Book, ks: set<MapKey>, k: MapKey) {
    ks <= m.Keys && k in ks && forall x :: x in ks ==> Older(m, k, x)
  }

  lemma {:induction false} OldestExists(m: Book, ks: set<MapKey>)
    requires ks != {} && ks <= m.Keys
    ensures exists k :: IsOldest(m, ks, k)
    decreases |ks|
  {
    var k :| k in ks;
    var rest := ks - {k};
    LtTotal(k, k);
    if rest == {} {
      assert ks == {k};
      assert IsOldest(m, ks, k);
    } else {
      OldestExists(m, rest);
      var o :| IsOldest(m, rest, o);
      LtTotal(k, o);
      var oldest := if Older(m, k, o) then k else o;
      forall x | x in ks ensures Older(m, oldest, x) {
        LtTotal(x, k);
        if x != k { assert x in rest && Older(m, o, x); }
      }
      assert IsOldest(m, ks, oldest);
    }
  }

  lemma OldestUnique(m: Book, ks: set<MapKey>, a: MapKey, b: MapKey)
    requires IsOldest(m, ks, a) && IsOldest(m, ks, b)
    ensures a == b
  {
    LtTotal(a, b);
  }

  ghost function OldestKey(m: Book, ks: set<MapKey>): (k: MapKey)
    requires ks != {} && ks <= m.Keys
    ensures IsOldest(m, ks, k)
  {
    OldestExists(m, ks);
    var k :| IsOldest(m, ks, k);
    k
  }

  /** The book after `evict_oldest_if_at_cap`. */
  ghost function Evicted(m: Book, c: Id16, key: BookKey): Book {
    var ks := ClassKeys(m, c, key);
    if |ks| < ClassCap(key) then m else m - {OldestKey(m, ks)}
  }

  /** The book and the outcome after one upsert. */
  ghost function Upserted(m: Book, c: Id16, row: Row, nowMs: u64): (Book, UpsertOutcome) {
    var r := Clamp(row, nowMs);
    var mk := MapKey(c, KeyForRow(r));
    var swept := Swept(m, c, nowMs);
    if mk in swept then
      if swept[mk].stampedAtMs >= r.stampedAtMs then (swept, IgnoredOlder) else (swept[mk := r], Replaced)
    else if |KeysOf(swept, c)| >= ADDRBOOK_MAX_ROWS then
      (swept, IgnoredCapped)
    else
      (Evicted(swept, c, mk.key)[mk := r], Inserted)
  }

  function WithoutOwner(m: Book, c: Id16, owner: Id16): Book {
    map k | k in m && !(k.community == c && k.key.actor == owner) :: m[k]
  }

  function WithoutCommunity(m: Book, c: Id16): Book {
    map k | k in m && k.community != c :: m[k]
  }

  function WithoutExpired(m: Book, nowMs: u64): Book {
    map k | k in m && !Expired(m[k], nowMs) :: m[k]
  }

  /** The unexpired rows under `ks`, in that order. */
  function FreshRows(m: Book, ks: seq<MapKey>, nowMs: u64): seq<Row> {
    if ks == [] then []
    else (if ks[0] in m && !Expired(m[ks[0]], nowMs) then [m[ks[0]]] else []) + FreshRows(m, ks[1..], nowMs)
  }

  /** What `rows_for_community` returns. */
  function FreshRowsOf(m: Book, c: Id16, nowMs: u64): seq<Row> {
    FreshRows(m, Ascending(KeysOf(m, c)), nowMs)
  }

  function ExpiredAmong(m: Book, ks: seq<MapKey>, nowMs: u64): set<MapKey> {
    if ks == [] then {}
    else (if ks[0] in m && Expired(m[ks[0]], nowMs) then {ks[0]} else {}) + ExpiredAmong(m, ks[1..], nowMs)
  }

  lemma {:induction false} ExpiredAmongMember(m: Book, ks: seq<MapKey>, nowMs: u64)
    ensures forall k :: k in ExpiredAmong(m, ks, nowMs) <==> k in ks && k in m && Expired(m[k], nowMs)
  {
    if ks != [] {
      ExpiredAmongMember(m, ks[1..], nowMs);
      assert ks == [ks[0]] + ks[1..];
    }
  }

  // ----- the store -----

  class CommunityAddressBook {
    var rows: Book

    constructor ()
      ensures rows == map[]
    {
      rows := map[];
    }

    method Upsert(c: Id16, row: Row, nowMs: u64) returns (outcome: UpsertOutcome)
      modifies this
      ensures (rows, outcome) == Upserted(old(rows), c, row, nowMs)
    {
      var r := Clamp(row, nowMs);
      var mk := MapKey(c, KeyForRow(r));
      SweepCommunity(c, nowMs);
      if mk in rows {
        if rows[mk].stampedAtMs >= r.stampedAtMs {
          return IgnoredOlder;
        }
        rows := rows[mk := r];
        return Replaced;
      }
      ScanIsFilter(rows, c);
      if |Scan(rows, c)| >= ADDRBOOK_MAX_ROWS {
        return IgnoredCapped;
      }
      EvictOldestIfAtCap(c, mk.key);
      rows := rows[mk := r];
      return Inserted;
    }

    /** The opportunistic write-side sweep of one community. */
    method SweepCommunity(c: Id16, nowMs: u64)
      modifies this
      ensures rows == Swept(old(rows), c, nowMs)
    {
      var scan := Scan(rows, c);
      SweepIsRemoval(rows, c, nowMs);
      hide Scan, Swept;
      var expired: set<MapKey> := {};
      for i := 0 to |scan|
        invariant expired + ExpiredAmong(rows, scan[i..], nowMs) == ExpiredAmong(rows, scan, nowMs)
      {
        assert scan[i..][1..] == scan[i + 1..] && scan[i..][0] == scan[i];
        if scan[i] in rows && Expired(rows[scan[i]], nowMs) {
          expired := expired + {scan[i]};
        }
      }
      rows := rows - expired;
    }

    method EvictOldestIfAtCap(c: Id16, key: BookKey)
      modifies this
      ensures rows == Evicted(old(rows), c, key)
    {
      var scan := Scan(rows, c);
      MineIsClass(rows, c, key);
      EvictedIs(rows, c, key);
      hide Scan, Evicted, ClassKeys, Lt;
      var mine := SelectMine(scan, key);
      if |mine| >= ClassCap(key) {
        var oldest := OldestIn(rows, mine);
        assert IsOldest(rows, ClassKeys(rows, c, key), oldest);
        rows := rows - {oldest};
      }
    }

    /** The fresh rows of one community, in key order. */
    method RowsForCommunity(c: Id16, nowMs: u64) returns (live: seq<Row>)
      ensures live == FreshRowsOf(rows, c, nowMs)
    {
      var scan := Scan(rows, c);
      ScanIsFilter(rows, c);
      hide Scan, Ascending;
      live := SelectFresh(rows, scan, nowMs);
    }

    method RemoveOwner(c: Id16, owner: Id16) returns (removed: nat)
      modifies this
      ensures rows == WithoutOwner(old(rows), c, owner)
      ensures forall k :: k in old(rows) ==> (k !in rows <==> k.community == c && k.key.actor == owner)
      ensures removed == |old(rows)| - |rows|
    {
      var before := |rows|;
      ghost var start := rows;
      rows := map k | k in rows && (k.community != c || k.key.actor != owner) :: rows[k];
      SubsetSize(rows.Keys, start.Keys);
      removed := before - |rows|;
    }

    method RemoveCommunity(c: Id16) returns (removed: nat)
      modifies this
      ensures rows == WithoutCommunity(old(rows), c)
      ensures forall k :: k in old(rows) ==> (k !in rows <==> k.community == c)
      ensures removed == |old(rows)| - |rows|
    {
      var before := |rows|;
      ghost var start := rows;
      rows := map k | k in rows && k.community != c :: rows[k];
      SubsetSize(rows.Keys, start.Keys);
      removed := before - |rows|;
    }

    method SweepExpired(nowMs: u64) returns (removed: nat)
      modifies this
      ensures rows == WithoutExpired(old(rows), nowMs)
      ensures forall k :: k in old(rows) ==>
                (k !in rows <==> nowMs > old(rows)[k].stampedAtMs + RowTtlMs(old(rows)[k].entry))
      ensures removed == |old(rows)| - |rows|
    {
      var before := |rows|;
      ghost var start := rows;
      rows := map k | k in rows && SatSub(nowMs, rows[k].stampedAtMs) <= RowTtlMs(rows[k].entry) :: rows[k];
      SubsetSize(rows.Keys, start.Keys);
      removed := before - |rows|;
    }
  }

  method SelectMine(ks: seq<MapKey>, key: BookKey) returns (mine: seq<MapKey>)
    ensures mine == Mine(ks, key)
  {
    mine := [];
    for i := 0 to |ks|
      invariant mine + Mine(ks[i..], key) == Mine(ks, key)
    {
      DropOne(ks, i);
      if SameClass(ks[i].key, key) {
        ConcatAssociates(mine, [ks[i]], Mine(ks[i + 1..], key));
        mine := mine + [ks[i]];
      } else {
        assert Mine(ks[i..], key) == Mine(ks[i + 1..], key);
      }
    }
  }

  method SelectFresh(m: Book, ks: seq<MapKey>, nowMs: u64) returns (live: seq<Row>)
    ensures live == FreshRows(m, ks, nowMs)
  {
    live := [];
    for i := 0 to |ks|
      invariant live + FreshRows(m, ks[i..], nowMs) == FreshRows(m, ks, nowMs)
    {
      DropOne(ks, i);
      if ks[i] in m && !Expired(m[ks[i]], nowMs) {
        ConcatAssociates(live, [m[ks[i]]], FreshRows(m, ks[i + 1..], nowMs));
        live := live + [m[ks[i]]];
      } else {
        assert FreshRows(m, ks[i..], nowMs) == FreshRows(m, ks[i + 1..], nowMs);
      }
    }
  }

  /** `min_by_key` over the stamps: the first row with the least stamp. */
  method OldestIn(m: Book, ks: seq<MapKey>) returns (oldest: MapKey)
    requires ks != [] && Ordered(ks) && forall k :: k in ks ==> k in m
    ensures oldest in ks && forall k :: k in ks ==> Older(m, oldest, k)
  {
    hide Lt;
    oldest := ks[0];
    LtTotal(oldest, oldest);
    for i := 1 to |ks|
      invariant oldest in ks[..i]
      invariant forall j :: 0 <= j < i ==> Older(m, oldest, ks[j])
    {
      assert exists j :: 0 <= j < i && ks[j] == oldest;
      LtTotal(oldest, ks[i]);
      LtTotal(ks[i], ks[i]);
      if m[ks[i]].stampedAtMs < m[oldest].stampedAtMs {
        oldest := ks[i];
      }
    }
  }

  lemma SweepIsRemoval(m: Book, c: Id16, nowMs: u64)
    ensures m - ExpiredAmong(m, Scan(m, c), nowMs) == Swept(m, c, nowMs)
  {
    ScanIsFilter(m, c);
    ExpiredAmongMember(m, Scan(m, c), nowMs);
    hide Scan;
    var after := m - ExpiredAmong(m, Scan(m, c), nowMs);
    assert after.Keys == Swept(m, c, nowMs).Keys;
  }

  lemma EvictedIs(m: Book, c: Id16, key: BookKey)
    ensures var ks := ClassKeys(m, c, key);
            && (|ks| < ClassCap(key) ==> Evicted(m, c, key) == m)
            && (forall k :: |ks| >= ClassCap(key) && k in m && IsOldest(m, ks, k) ==> Evicted(m, c, key) == m - {k})
  {
    var ks := ClassKeys(m, c, key);
    forall k | |ks| >= ClassCap(key) && IsOldest(m, ks, k)
      ensures Evicted(m, c, key) == m - {k}
    {
      OldestUnique(m, ks, k, OldestKey(m, ks));
    }
  }

  function Mine(ks: seq<MapKey>, key: BookKey): seq<MapKey> {
    if ks == [] then []
    else (if SameClass(ks[0].key, key) then [ks[0]] else []) + Mine(ks[1..], key)
  }

  predicate Ordered(ks: seq<MapKey>) {
    forall i, j :: 0 <= i < j < |ks| ==> Lt(ks[i], ks[j])
  }

  lemma {:induction false} MineOrdered(ks: seq<MapKey>, key: BookKey)
    requires Ordered(ks)
    ensures Ordered(Mine(ks, key))
    ensures forall k :: k in Mine(ks, key) <==> k in ks && SameClass(k.key, key)
  {
    if ks != [] {
      MineOrdered(ks[1..], key);
      assert ks == [ks[0]] + ks[1..];
    }
  }

  lemma {:induction false} OrderedCount(ks: seq<MapKey>, s: set<MapKey>)
    requires Ordered(ks) && forall k :: k in ks <==> k in s
    ensures |ks| == |s|
  {
    if ks == [] {
      assert s == {};
    } else {
      var k := ks[0];
      LtTotal(k, k);
      assert ks == [k] + ks[1..];
      assert k !in ks[1..];
      assert forall x :: x in ks[1..] <==> x in s - {k};
      OrderedCount(ks[1..], s - {k});
    }
  }

  lemma MineIsClass(m: Book, c: Id16, key: BookKey)
    ensures var mine := Mine(Scan(m, c), key);
            && Ordered(mine) && |mine| == |ClassKeys(m, c, key)|
            && (forall k :: k in mine <==> k in ClassKeys(m, c, key))
            && (forall k :: k in mine ==> k in m)
  {
    ScanIsFilter(m, c);
    var scan := Scan(m, c);
    forall i, j | 0 <= i < j < |scan| ensures Lt(scan[i], scan[j]) {
      AscendingOrdered(KeysOf(m, c), i, j);
    }
    MineOrdered(scan, key);
    OrderedCount(Mine(scan, key), ClassKeys(m, c, key));
  }

  lemma {:induction false} FreshRowsMember(m: Book, ks: seq<MapKey>, nowMs: u64, row: Row)
    ensures row in FreshRows(m, ks, nowMs) <==> exists k :: k in ks && k in m && m[k] == row && !Expired(row, nowMs)
  {
    if ks != [] {
      FreshRowsMember(m, ks[1..], nowMs, row);
      assert ks == [ks[0]] + ks[1..];
    }
  }

  /** `rows_for_community` returns exactly the community's unexpired rows. */
  lemma FreshRowsOfCommunity(m: Book, c: Id16, nowMs: u64, row: Row)
    ensures row in FreshRowsOf(m, c, nowMs)
       <==> exists k :: k in m && k.community == c && m[k] == row && !Expired(row, nowMs)
  {
    FreshRowsMember(m, Ascending(KeysOf(m, c)), nowMs, row);
  }
}
