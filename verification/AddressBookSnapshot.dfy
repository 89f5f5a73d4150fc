/** The bounded snapshot reply: the largest newest-first prefix of the rows whose
    sealed packet fits a byte cap (`src-tauri/src/address_book_sync.rs`). */
module AddressBookSnapshot {
  import opened Prelude
  import opened AddressBook

  /** Sealing a list of rows under the community's key, or the reason it failed. */
  type Sealer = seq<Row> -> Result<seq<byte>, string>

  // ----- newest first -----

  function InsertNewest(row: Row, s: seq<Row>): seq<Row> {
    if s == [] || s[0].stampedAtMs <= row.stampedAtMs then [row] + s else [s[0]] + InsertNewest(row, s[1..])
  }

  /** The stable sort by falling stamp. */
  function NewestFirst(rows: seq<Row>): seq<Row> {
    if rows == [] then [] else InsertNewest(rows[0], NewestFirst(rows[1..]))
  }

  predicate Falling(s: seq<Row>) {
    forall i, j :: 0 <= i < j < |s| ==> s[i].stampedAtMs >= s[j].stampedAtMs
  }

  /** The rows carrying one stamp, in their order. */
  function Stamped(s: seq<Row>, stamp: u64): seq<Row> {
    if s == [] then [] else (if s[0].stampedAtMs == stamp then [s[0]] else []) + Stamped(s[1..], stamp)
  }

  lemma {:induction false} InsertNewestMultiset(row: Row, s: seq<Row>)
    ensures multiset(InsertNewest(row, s)) == multiset(s) + multiset{row}
  {
    if s == [] || s[0].stampedAtMs <= row.stampedAtMs {
    } else {
      InsertNewestMultiset(row, s[1..]);
      assert s == [s[0]] + s[1..];
    }
  }

  lemma {:induction false} InsertNewestFalling(row: Row, s: seq<Row>)
    requires Falling(s)
    ensures Falling(InsertNewest(row, s))
  {
    if s == [] || s[0].stampedAtMs <= row.stampedAtMs {
    } else {
      var rest := InsertNewest(row, s[1..]);
      InsertNewestFalling(row, s[1..]);
      InsertNewestMultiset(row, s[1..]);
      forall i | 0 <= i < |rest| ensures rest[i].stampedAtMs <= s[0].stampedAtMs {
        assert rest[i] in multiset(rest);
      }
    }
  }

  lemma StampedCons(row: Row, s: seq<Row>, stamp: u64)
    ensures Stamped([row] + s, stamp) == (if row.stampedAtMs == stamp then [row] else []) + Stamped(s, stamp)
  {
    assert ([row] + s)[1..] == s;
  }

  lemma {:induction false} InsertNewestStable(row: Row, s: seq<Row>, stamp: u64)
    requires Falling(s)
    ensures Stamped(InsertNewest(row, s), stamp) == (if row.stampedAtMs == stamp then [row] else []) + Stamped(s, stamp)
  {
    hide Stamped;
    if s == [] || s[0].stampedAtMs <= row.stampedAtMs {
      StampedCons(row, s, stamp);
    } else {
      InsertNewestStable(row, s[1..], stamp);
      StampedCons(s[0], InsertNewest(row, s[1..]), stamp);
      StampedCons(s[0], s[1..], stamp);
      assert [s[0]] + s[1..] == s;
    }
  }

  /** The order of the snapshot: falling stamps, a permutation of the rows, and
      rows of one stamp in their original order. */
  lemma {:induction false} NewestFirstIsStableSort(rows: seq<Row>, stamp: u64)
    ensures Falling(NewestFirst(rows))
    ensures multiset(NewestFirst(rows)) == multiset(rows)
    ensures Stamped(NewestFirst(rows), stamp) == Stamped(rows, stamp)
  {
    if rows != [] {
      NewestFirstIsStableSort(rows[1..], stamp);
      hide InsertNewest, Falling;
      InsertNewestFalling(rows[0], NewestFirst(rows[1..]));
      InsertNewestMultiset(rows[0], NewestFirst(rows[1..]));
      InsertNewestStable(rows[0], NewestFirst(rows[1..]), stamp);
      assert rows == [rows[0]] + rows[1..];
    }
  }

  // ----- the chosen prefix -----

  predicate Fits(seal: Sealer, s: seq<Row>, k: nat, maxBytes: nat)
    requires k <= |s|
  {
    seal(s[..k]).Ok? && |seal(s[..k]).value| <= maxBytes
  }

  /** A prefix that fits, or the empty one, which cannot be extended by one row. */
  predicate Boundary(seal: Sealer, s: seq<Row>, k: nat, maxBytes: nat) {
    && k <= |s|
    && (k == 0 || Fits(seal, s, k, maxBytes))
    && (k == |s| || !Fits(seal, s, k + 1, maxBytes))
  }

  predicate AlwaysSeals(seal: Sealer, s: seq<Row>) {
    forall k :: 0 <= k <= |s| ==> seal(s[..k]).Ok?
  }

  /** More rows never seal to fewer bytes. */
  predicate Monotone(seal: Sealer, s: seq<Row>)
    requires AlwaysSeals(seal, s)
  {
    forall i, j :: 0 <= i <= j <= |s| ==> |seal(s[..i]).value| <= |seal(s[..j]).value|
  }

  /** How often a width is halved, rounding up, before it reaches one. */
  function Halvings(width: nat): nat {
    if width <= 1 then 0 else 1 + Halvings((width + 1) / 2)
  }

  lemma {:induction false} HalvingsMonotone(a: nat, b: nat)
    requires a <= b
    ensures Halvings(a) <= Halvings(b)
  {
    if a > 1 {
      HalvingsMonotone((a + 1) / 2, (b + 1) / 2);
    }
  }

  /** The halvings are the base-two logarithm, rounded up. */
  lemma {:induction false} HalvingsIsLog(width: nat, r: nat)
    ensures Halvings(width) <= r <==> width <= Pow2(r)
  {
    if width > 1 {
      if r > 0 {
        HalvingsIsLog((width + 1) / 2, r - 1);
      }
    }
  }

  /** The result is the sealed packet of a boundary prefix. */
  predicate Serves(seal: Sealer, s: seq<Row>, maxBytes: nat, out: Result<seq<byte>, string>) {
    exists k :: 0 <= k <= |s| && Boundary(seal, s, k, maxBytes) && out == seal(s[..k])
  }

  /** The result is the error of sealing some prefix. */
  predicate SealFailed(seal: Sealer, s: seq<Row>, out: Result<seq<byte>, string>) {
    exists k :: 0 <= k <= |s| && out == seal(s[..k])
  }

  /** `seal_snapshot_bounded`; `seals` counts the packets sealed. */
  method SealSnapshotBounded(seal: Sealer, rows: seq<Row>, maxBytes: nat)
    returns (out: Result<seq<byte>, string>, ghost seals: nat)
    ensures out.Ok? ==> Serves(seal, NewestFirst(rows), maxBytes, out)
    ensures out.Err? ==> SealFailed(seal, NewestFirst(rows), out)
    ensures AlwaysSeals(seal, NewestFirst(rows)) ==> out.Ok?
    ensures seals <= 2 + Halvings(|rows|)
  {
    var s := NewestFirst(rows);
    SameLength(rows);
    hide NewestFirst, AlwaysSeals;
    EverySeals(seal, s);
    assert s[..|s|] == s;
    var full := seal(s);
    seals := 1;
    if full.Err? {
      return full, seals;
    }
    if |full.value| <= maxBytes || |s| == 0 {
      assert Boundary(seal, s, |s|, maxBytes);
      return full, seals;
    }
    var lo, hi := 0, |s|;
    var best: Option<seq<byte>> := None;
    while lo + 1 < hi
      invariant 0 <= lo < hi <= |s| && !Fits(seal, s, hi, maxBytes)
      invariant lo == 0 <==> best == None
      invariant lo > 0 ==> Fits(seal, s, lo, maxBytes) && best == Some(seal(s[..lo]).value)
      invariant seals + Halvings(hi - lo) <= 1 + Halvings(|s|)
    {
      var mid := lo + (hi - lo) / 2;
      HalvingsMonotone(hi - mid, (hi - lo + 1) / 2);
      HalvingsMonotone(mid - lo, (hi - lo + 1) / 2);
      var packet := seal(s[..mid]);
      seals := seals + 1;
      if packet.Err? {
        return packet, seals;
      }
      if |packet.value| <= maxBytes {
        lo := mid;
        best := Some(packet.value);
      } else {
        hi := mid;
      }
    }
    assert Boundary(seal, s, lo, maxBytes);
    match best {
      case Some(packet) =>
        return Ok(packet), seals;
      case None =>
        assert s[..0] == [];
        seals := seals + 1;
        return seal([]), seals;
    }
  }

  lemma EverySeals(seal: Sealer, s: seq<Row>)
    ensures AlwaysSeals(seal, s) ==> forall k :: 0 <= k <= |s| ==> seal(s[..k]).Ok?
  {
  }

  lemma {:induction false} SameLength(rows: seq<Row>)
    ensures |NewestFirst(rows)| == |rows|
  {
    NewestFirstIsStableSort(rows, 0);
    assert |multiset(NewestFirst(rows))| == |multiset(rows)|;
  }

  /** When every prefix seals and sizes are monotone, the served prefix is the
      longest one that fits, and the empty one when none does. */
  lemma ServesLongest(seal: Sealer, s: seq<Row>, maxBytes: nat, out: Result<seq<byte>, string>)
    requires AlwaysSeals(seal, s) && Monotone(seal, s) && Serves(seal, s, maxBytes, out)
    ensures exists k :: 0 <= k <= |s| && out == seal(s[..k])
              && (k == 0 || Fits(seal, s, k, maxBytes))
              && forall j :: k < j <= |s| ==> !Fits(seal, s, j, maxBytes)
    ensures |out.value| <= maxBytes <==> |seal(s[..0]).value| <= maxBytes
  {
    var k :| 0 <= k <= |s| && Boundary(seal, s, k, maxBytes) && out == seal(s[..k]);
    forall j | k < j <= |s| ensures !Fits(seal, s, j, maxBytes) {
      BoundaryIsLongest(seal, s, k, maxBytes, j);
    }
    ServedFitsIffEmptyFits(seal, s, k, maxBytes);
  }

  lemma BoundaryIsLongest(seal: Sealer, s: seq<Row>, k: nat, maxBytes: nat, j: nat)
    requires AlwaysSeals(seal, s) && Monotone(seal, s) && Boundary(seal, s, k, maxBytes)
    requires j <= |s|
    ensures Fits(seal, s, j, maxBytes) ==> j <= k
    ensures j <= k && Fits(seal, s, k, maxBytes) ==> Fits(seal, s, j, maxBytes)
  {
    if j > k {
      assert |seal(s[..k + 1]).value| <= |seal(s[..j]).value|;
    }
  }

  /** The served packet is within the cap exactly when the sealed empty set is:
      below that size the reply is over the cap whatever the rows. */
  lemma ServedFitsIffEmptyFits(seal: Sealer, s: seq<Row>, k: nat, maxBytes: nat)
    requires AlwaysSeals(seal, s) && Monotone(seal, s) && Boundary(seal, s, k, maxBytes)
    ensures |seal(s[..k]).value| <= maxBytes <==> |seal(s[..0]).value| <= maxBytes
  {
    BoundaryIsLongest(seal, s, k, maxBytes, 0);
    assert |seal(s[..0]).value| <= |seal(s[..k]).value|;
  }

  /** Below the sealed overhead not even the empty set fits: whatever rows there
      are, the reply is the sealed empty set, and it is over the cap. */
  lemma BelowOverheadExceedsCap(seal: Sealer, s: seq<Row>, maxBytes: nat, out: Result<seq<byte>, string>)
    requires AlwaysSeals(seal, s) && Monotone(seal, s) && s != []
    requires maxBytes < |seal(s[..0]).value|
    ensures Serves(seal, s, maxBytes, out) <==> out == seal(s[..0])
    ensures Serves(seal, s, maxBytes, out) ==> |out.value| > maxBytes
  {
    forall k | 0 <= k <= |s| ensures !Fits(seal, s, k, maxBytes) && |seal(s[..0]).value| <= |seal(s[..k]).value| {
    }
    assert Boundary(seal, s, 0, maxBytes);
  }

  /** Such a sealer, with one byte of overhead, and such a row list. */
  lemma EmptySetCanExceedCap(row: Row)
    ensures var seal: Sealer := rows => Ok([0] + seq(|rows|, _ => 0));
            && AlwaysSeals(seal, [row]) && Monotone(seal, [row])
            && Serves(seal, [row], 0, seal([row][..0])) && |seal([row][..0]).value| > 0
  {
    var seal: Sealer := rows => Ok([0] + seq(|rows|, _ => 0));
    assert [row] != [] && |seal([row][..0]).value| == 1;
    BelowOverheadExceedsCap(seal, [row], 0, seal([row][..0]));
  }
}
