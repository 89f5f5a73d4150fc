/** What one upsert of the community address book does to any book, said without
    the store's own steps: its outcome, the stored row, the evicted row; and what
    its keys, its expiry and its reads mean
    (`src-tauri/src/community_address_book.rs`). */
module AddressBookUpsert {
  import opened Prelude
  import opened AddressBook
  import opened AddressBookRun

  // ----- keys and expiry -----

  /** Two rows share a key exactly when they are the same member's, of the same kind,
      and name the same node or relay device. */
  lemma KeyForRowIdentifies(a: Row, b: Row)
    ensures KeyForRow(a) == KeyForRow(b)
       <==> a.actor == b.actor
            && match (a.entry, b.entry)
               case (ReachabilityEntry(node, _), ReachabilityEntry(node', _)) => node == node'
               case (RelayEntry(device, _), RelayEntry(device', _)) => device == device'
               case _ => false
    ensures KeyForRow(a).actor == a.actor && (KeyForRow(a).Reachability? <==> a.entry.ReachabilityEntry?)
  {
  }

  /** A day for reachability rows, a quarter of an hour for relay rows. */
  predicate TooOld(row: Row, nowMs: u64) {
    row.stampedAtMs + (if row.entry.ReachabilityEntry? then 86_400_000 else 900_000) < nowMs
  }

  lemma ExpiredIsTooOld(row: Row, nowMs: u64)
    ensures Expired(row, nowMs) <==> TooOld(row, nowMs)
  {
  }

  // ----- the decision -----

  /** The row is still there once the community's old rows are gone. */
  predicate Live(m: Book, c: Id16, nowMs: u64, k: MapKey) {
    k in m && !(k.community == c && TooOld(m[k], nowMs))
  }

  function LiveIn(m: Book, c: Id16, nowMs: u64): set<MapKey> {
    set k | k in m && k.community == c && !TooOld(m[k], nowMs)
  }

  /** The member's live rows of the community, of one kind. */
  function LiveClass(m: Book, c: Id16, nowMs: u64, actor: Id16, reachability: bool): set<MapKey> {
    set k | k in m && k.community == c && !TooOld(m[k], nowMs) && k.key.actor == actor
            && k.key.Reachability? == reachability
  }

  /** The stamp that counts: not more than five minutes ahead of the clock. */
  function EffectiveStamp(row: Row, nowMs: u64): u64 {
    if row.stampedAtMs <= nowMs + 300_000 then row.stampedAtMs else nowMs + 300_000
  }

  lemma SweptIsLive(m: Book, c: Id16, nowMs: u64)
    ensures forall k :: k in Swept(m, c, nowMs) <==> Live(m, c, nowMs, k)
    ensures forall k :: k in Swept(m, c, nowMs) ==> Swept(m, c, nowMs)[k] == m[k]
    ensures KeysOf(Swept(m, c, nowMs), c) == LiveIn(m, c, nowMs)
  {
    hide TooOld, Expired;
    forall k | k in m ensures Expired(m[k], nowMs) <==> TooOld(m[k], nowMs) {
      ExpiredIsTooOld(m[k], nowMs);
    }
  }

  lemma SweptClass(m: Book, c: Id16, nowMs: u64, key: BookKey)
    ensures ClassKeys(Swept(m, c, nowMs), c, key) == LiveClass(m, c, nowMs, key.actor, key.Reachability?)
    ensures ClassCap(key) == 8
  {
    hide TooOld, Expired;
    forall k | k in m ensures Expired(m[k], nowMs) <==> TooOld(m[k], nowMs) {
      ExpiredIsTooOld(m[k], nowMs);
    }
  }

  lemma ClampIs(row: Row, nowMs: u64)
    ensures Clamp(row, nowMs) == row.(stampedAtMs := EffectiveStamp(row, nowMs))
    ensures KeyForRow(Clamp(row, nowMs)) == KeyForRow(row)
  {
  }

  /** For every book: an upsert is ignored as older exactly when a live row under its
      key has at least its stamp, replaces exactly when that row's stamp is smaller,
      is turned away exactly when the key is new and the community is full of live
      rows, and otherwise inserts. */
  lemma OutcomeDecided(m: Book, c: Id16, row: Row, nowMs: u64)
    ensures var outcome := Upserted(m, c, row, nowMs).1;
            var k, stamp := MapKey(c, KeyForRow(row)), EffectiveStamp(row, nowMs);
            && (outcome == IgnoredOlder <==> Live(m, c, nowMs, k) && stamp <= m[k].stampedAtMs)
            && (outcome == Replaced <==> Live(m, c, nowMs, k) && m[k].stampedAtMs < stamp)
            && (outcome == IgnoredCapped <==> !Live(m, c, nowMs, k) && |LiveIn(m, c, nowMs)| >= 4096)
            && (outcome == Inserted <==> !Live(m, c, nowMs, k) && |LiveIn(m, c, nowMs)| < 4096)
  {
    SweptIsLive(m, c, nowMs);
    ClampIs(row, nowMs);
    hide Live, LiveIn, EffectiveStamp, Clamp, KeyForRow, Swept, KeysOf, Evicted;
  }

  /** The older of two rows of a book: the smaller stamp, or at one stamp the
      earlier key. */
  predicate OlderRow(m: Book, a: MapKey, b: MapKey)
    requires a in m && b in m
  {
    m[a].stampedAtMs < m[b].stampedAtMs || (m[a].stampedAtMs == m[b].stampedAtMs && !Lt(b, a))
  }

  /** The row of the class that an insertion of `k` costs, if any: the class already
      has eight live rows, and it is the oldest of them. */
  predicate Displaced(m: Book, c: Id16, nowMs: u64, k: MapKey, x: MapKey) {
    var mine := LiveClass(m, c, nowMs, k.key.actor, k.key.Reachability?);
    |mine| >= 8 && x in mine && forall y :: y in mine ==> OlderRow(m, x, y)
  }

  lemma DisplacedIsOldest(m: Book, c: Id16, nowMs: u64, k: MapKey, x: MapKey)
    ensures var swept := Swept(m, c, nowMs);
            var ks := ClassKeys(swept, c, k.key);
            Displaced(m, c, nowMs, k, x) <==> |ks| >= ClassCap(k.key) && IsOldest(swept, ks, x)
  {
    SweptIsLive(m, c, nowMs);
    SweptClass(m, c, nowMs, k.key);
    hide Lt, TooOld, ClassCap, SameClass, Swept;
  }

  lemma EvictedLacks(m: Book, c: Id16, nowMs: u64, k: MapKey)
    ensures var swept := Swept(m, c, nowMs);
            && (forall x :: x in Evicted(swept, c, k.key) <==> x in swept && !Displaced(m, c, nowMs, k, x))
            && (forall x :: x in Evicted(swept, c, k.key) ==> Evicted(swept, c, k.key)[x] == swept[x])
  {
    var swept := Swept(m, c, nowMs);
    var ks := ClassKeys(swept, c, k.key);
    forall x ensures x in Evicted(swept, c, k.key) <==> x in swept && !Displaced(m, c, nowMs, k, x) {
      DisplacedIsOldest(m, c, nowMs, k, x);
      ClassCapped(k.key);
      hide Displaced, Swept, ClassCap, Lt, Older;
      if |ks| >= ClassCap(k.key) && IsOldest(swept, ks, x) {
        OldestUnique(swept, ks, x, OldestKey(swept, ks));
      }
    }
  }

  lemma ClassCapped(key: BookKey)
    ensures ClassCap(key) == 8
  {
  }

  /** For every book: what it holds afterwards. A replaced or inserted row is stored
      with its effective stamp; every other live row stays as it was, except that an
      insertion at the member's cap of eight costs the oldest row of the class. */
  lemma BookDecided(m: Book, c: Id16, row: Row, nowMs: u64)
    ensures var (n, outcome) := Upserted(m, c, row, nowMs);
            var k := MapKey(c, KeyForRow(row));
            && (outcome in {Replaced, Inserted} ==>
                  k in n && n[k] == row.(stampedAtMs := EffectiveStamp(row, nowMs)))
            && (outcome in {IgnoredOlder, IgnoredCapped} ==>
                  (k in n <==> Live(m, c, nowMs, k)) && (k in n ==> n[k] == m[k]))
            && (forall x :: x != k ==>
                  && (x in n <==> Live(m, c, nowMs, x) && !(outcome == Inserted && Displaced(m, c, nowMs, k, x)))
                  && (x in n ==> n[x] == m[x]))
  {
    var k := MapKey(c, KeyForRow(row));
    SweptIsLive(m, c, nowMs);
    ClampIs(row, nowMs);
    EvictedLacks(m, c, nowMs, k);
    hide Live, LiveIn, EffectiveStamp, Clamp, KeyForRow, Swept, KeysOf, Evicted, Displaced;
  }

  lemma OneDisplaced(m: Book, c: Id16, nowMs: u64, k: MapKey) returns (o: MapKey)
    requires |LiveClass(m, c, nowMs, k.key.actor, k.key.Reachability?)| >= 8
    ensures Displaced(m, c, nowMs, k, o) && o in LiveClass(m, c, nowMs, k.key.actor, k.key.Reachability?)
    ensures forall x :: Displaced(m, c, nowMs, k, x) ==> x == o
  {
    var swept := Swept(m, c, nowMs);
    SweptClass(m, c, nowMs, k.key);
    var ks := ClassKeys(swept, c, k.key);
    assert |ks| > 0;
    OldestExists(swept, ks);
    o :| IsOldest(swept, ks, o);
    hide Swept, ClassKeys, LiveClass, Older, Lt;
    forall x ensures Displaced(m, c, nowMs, k, x) <==> x == o {
      DisplacedIsOldest(m, c, nowMs, k, x);
      if IsOldest(swept, ks, x) {
        OldestUnique(swept, ks, x, o);
      }
    }
  }

  /** An insertion at the cap of eight costs exactly one row, so the class keeps its
      size; below the cap the class grows by one. */
  lemma ClassKeepsSize(m: Book, c: Id16, row: Row, nowMs: u64)
    requires Upserted(m, c, row, nowMs).1 == Inserted
    ensures var n := Upserted(m, c, row, nowMs).0;
            var k := KeyForRow(row);
            var mine := LiveClass(m, c, nowMs, k.actor, k.Reachability?);
            |ClassKeys(n, c, k)| == if |mine| >= 8 then |mine| else |mine| + 1
  {
    var n := Upserted(m, c, row, nowMs).0;
    var k := MapKey(c, KeyForRow(row));
    var mine := LiveClass(m, c, nowMs, k.key.actor, k.key.Reachability?);
    var after := ClassKeys(n, c, k.key);
    NewInClass(m, c, row, nowMs);
    hide *;
    forall x ensures x in after <==> x == k || (x in mine && !Displaced(m, c, nowMs, k, x)) {
      ClassAfter(m, c, row, nowMs, x);
    }
    if |mine| >= 8 {
      var o := OneDisplaced(m, c, nowMs, k);
      OneForOne(after, mine, o, k);
    } else {
      NoneDisplaced(m, c, nowMs, k);
      OneMoreKey(after, mine, k);
    }
  }

  lemma OneForOne(after: set<MapKey>, mine: set<MapKey>, o: MapKey, k: MapKey)
    requires o in mine && k !in mine && forall x :: x in after <==> x == k || (x in mine && x != o)
    ensures |after| == |mine|
  {
    assert after == mine - {o} + {k};
  }

  lemma OneMoreKey(after: set<MapKey>, mine: set<MapKey>, k: MapKey)
    requires k !in mine && forall x :: x in after <==> x == k || x in mine
    ensures |after| == |mine| + 1
  {
    assert after == mine + {k};
  }

  lemma NoneDisplaced(m: Book, c: Id16, nowMs: u64, k: MapKey)
    requires |LiveClass(m, c, nowMs, k.key.actor, k.key.Reachability?)| < 8
    ensures forall x :: !Displaced(m, c, nowMs, k, x)
  {
  }

  lemma NewInClass(m: Book, c: Id16, row: Row, nowMs: u64)
    requires Upserted(m, c, row, nowMs).1 == Inserted
    ensures var k := MapKey(c, KeyForRow(row)); k !in LiveClass(m, c, nowMs, k.key.actor, k.key.Reachability?)
  {
    OutcomeDecided(m, c, row, nowMs);
    hide Upserted, KeyForRow, TooOld;
  }

  lemma ClassAfter(m: Book, c: Id16, row: Row, nowMs: u64, x: MapKey)
    requires Upserted(m, c, row, nowMs).1 == Inserted
    ensures var n := Upserted(m, c, row, nowMs).0;
            var k := MapKey(c, KeyForRow(row));
            x in ClassKeys(n, c, k.key)
            <==> || x == k
                 || (&& x in LiveClass(m, c, nowMs, k.key.actor, k.key.Reachability?)
                     && !Displaced(m, c, nowMs, k, x))
  {
    OutcomeDecided(m, c, row, nowMs);
    BookDecided(m, c, row, nowMs);
    NewInClass(m, c, row, nowMs);
    hide Upserted, KeyForRow, TooOld, Displaced;
  }

  // ----- reads -----

  /** A read returns the community's rows that are not too old, each once, in key
      order. */
  lemma RowsInKeyOrder(m: Book, c: Id16, nowMs: u64) returns (ks: seq<MapKey>)
    ensures Ordered(ks) && forall k :: k in ks <==> k in LiveIn(m, c, nowMs)
    ensures var rows := FreshRowsOf(m, c, nowMs);
            |rows| == |ks| && forall i :: 0 <= i < |ks| ==> ks[i] in m && rows[i] == m[ks[i]]
  {
    ks := Ascending(FreshKeys(m, c, nowMs));
    FreshRowsOfIs(m, c, nowMs);
    forall k | k in m ensures Expired(m[k], nowMs) <==> TooOld(m[k], nowMs) {
      ExpiredIsTooOld(m[k], nowMs);
    }
    hide FreshRowsOf, Ascending, Lt, Expired, TooOld;
    forall i, j | 0 <= i < j < |ks| ensures Lt(ks[i], ks[j]) {
      AscendingOrdered(FreshKeys(m, c, nowMs), i, j);
    }
    RowsAtEach(m, ks);
  }

  lemma {:induction false} RowsAtEach(m: Book, ks: seq<MapKey>)
    requires forall k :: k in ks ==> k in m
    ensures |RowsAt(m, ks)| == |ks|
    ensures forall i :: 0 <= i < |ks| ==> ks[i] in m && RowsAt(m, ks)[i] == m[ks[i]]
  {
    if ks != [] {
      RowsAtEach(m, ks[1..]);
    }
  }
}
