/** Paging through a beacon log that retains ties: exactly when a requester ends up
    with every beacon, and after how many rounds
    (`src-tauri/src/community_dfrost_catchup.rs`). */
module CatchupTies {
  import opened Prelude
  import opened CatchupBeacons
  import opened CatchupPaging

  type Events = seq<CommitteeEvent>

  // ----- what the requester holds -----

  /** Events are kept once. */
  predicate Unique(log: Events) {
    forall i, j :: 0 <= i < j < |log| ==> log[i] != log[j]
  }

  predicate HoldsAll(log: Events, admitted: Events) {
    forall e :: e in admitted ==> e in log
  }

  /** The requester's beacons all came from this responder. */
  predicate OnlyServed(log: Events, admitted: Events, nowMs: u64) {
    forall e :: e in log && Admissible(e, nowMs) ==> e in admitted
  }

  /** One exchange. */
  function Exchanged(decode: BeaconDecoder, admitted: Events, log: Events, nowMs: u64, maxBeacons: nat): Events {
    AdoptAll(log, Served(decode, admitted, BeaconWatermarkOf(log, nowMs), maxBeacons))
  }

  lemma {:induction false} AdoptAllMember(log: Events, served: Events, x: CommitteeEvent)
    ensures x in AdoptAll(log, served) <==> x in log || x in served
    decreases |served|
  {
    if served != [] {
      AdoptAllMember(Adopt(log, served[0]), served[1..], x);
      InsertMember(log, served[0], x);
      assert served == [served[0]] + served[1..];
    }
  }

  lemma {:induction false} AdoptAllOrdered(log: Events, served: Events)
    requires HlcOrdered(log)
    ensures HlcOrdered(AdoptAll(log, served))
    decreases |served|
  {
    hide HlcOrdered, InsertEvent;
    if served != [] {
      InsertOrdered(log, served[0]);
      AdoptAllOrdered(Adopt(log, served[0]), served[1..]);
    }
  }

  lemma ServedIsChosen(decode: BeaconDecoder, admitted: Events, watermark: Option<Hlc>, maxBeacons: nat, i: nat)
    requires Unique(admitted) && i < |admitted|
    ensures admitted[i] in Served(decode, admitted, watermark, maxBeacons)
       <==> Chosen(TiedFlags(decode, admitted), AboveFlags(watermark, admitted), maxBeacons, i)
  {
    var flags := ChosenFlags(TiedFlags(decode, admitted), AboveFlags(watermark, admitted), maxBeacons);
    assert flags[i] <==> Chosen(TiedFlags(decode, admitted), AboveFlags(watermark, admitted), maxBeacons, i);
    hide *;
    ServedIs(decode, admitted, watermark, maxBeacons);
    UniqueEmit(admitted, flags, i);
  }

  lemma UniqueEmit(items: Events, flags: seq<bool>, i: nat)
    requires Unique(items) && |items| == |flags| && i < |items|
    ensures items[i] in Emit(items, flags) <==> flags[i]
  {
    hide Emit;
    EmitMember(items, flags, items[i]);
  }

  /** What every exchange keeps, and what one adds. */
  lemma ExchangeAdds(decode: BeaconDecoder, admitted: Events, log: Events, nowMs: u64, maxBeacons: nat)
    requires HlcOrdered(log) && OnlyServed(log, admitted, nowMs) && Unique(admitted)
    ensures var next := Exchanged(decode, admitted, log, nowMs, maxBeacons);
            var above := AboveFlags(BeaconWatermarkOf(log, nowMs), admitted);
            && HlcOrdered(next) && OnlyServed(next, admitted, nowMs)
            && (forall i :: 0 <= i < |admitted| ==>
                  (admitted[i] in next
                   <==> admitted[i] in log || Chosen(TiedFlags(decode, admitted), above, maxBeacons, i)))
  {
    var watermark := BeaconWatermarkOf(log, nowMs);
    var served := Served(decode, admitted, watermark, maxBeacons);
    var next := AdoptAll(log, served);
    AdoptAllOrdered(log, served);
    hide AdoptAll, Served, Chosen, TiedFlags, AboveFlags, HlcOrdered, BeaconWatermarkOf, Admissible;
    forall e | e in next && Admissible(e, nowMs) ensures e in admitted {
      AdoptAllMember(log, served, e);
      if e in served {
        ServedMember(decode, admitted, watermark, maxBeacons, e);
      }
    }
    forall i | 0 <= i < |admitted|
      ensures admitted[i] in next
         <==> admitted[i] in log || Chosen(TiedFlags(decode, admitted), AboveFlags(watermark, admitted), maxBeacons, i)
    {
      AdoptAllMember(log, served, admitted[i]);
      ServedIsChosen(decode, admitted, watermark, maxBeacons, i);
    }
  }

  /** A beacon is above the requester's watermark exactly when it is later than
      everything the requester holds. */
  lemma AboveIsLater(admitted: Events, log: Events, nowMs: u64, e: CommitteeEvent)
    requires HlcOrdered(log) && OnlyServed(log, admitted, nowMs)
    requires forall x :: x in admitted ==> Admissible(x, nowMs)
    ensures Above(BeaconWatermarkOf(log, nowMs), e)
       <==> forall x :: x in admitted && x in log ==> HlcLt(x.hlc, e.hlc)
  {
    var watermark := BeaconWatermarkOf(log, nowMs);
    if watermark.None? {
      forall x | x in admitted && x in log ensures false {
        WatermarkIsGreatest(log, nowMs, x);
      }
    } else {
      var held := Admitted(log, nowMs);
      var last := held[|held| - 1];
      AdmittedMember(log, nowMs, last);
      hide HlcLt, Admissible, HlcOrdered;
      if HlcLt(watermark.value, e.hlc) {
        forall x | x in admitted && x in log ensures HlcLt(x.hlc, e.hlc) {
          WatermarkIsGreatest(log, nowMs, x);
          HlcTotal(watermark.value, x.hlc);
          HlcTotal(watermark.value, e.hlc);
          if x.hlc != watermark.value {
            HlcTrans(x.hlc, watermark.value, e.hlc);
          }
        }
      }
    }
  }

  // ----- pages of untied beacons -----

  /** The untied positions. */
  function Untied(tied: seq<bool>): (f: seq<bool>)
    ensures |f| == |tied|
  {
    seq(|tied|, i requires 0 <= i < |tied| => !tied[i])
  }

  /** How many untied beacons are older. */
  function Rank(tied: seq<bool>, i: nat): nat
    requires i < |tied|
  {
    Count(Untied(tied)[..i])
  }

  /** The requester holds the tied beacons and the first `c` untied ones; for `c`
      zero it holds nothing. */
  predicate HeldUpTo(admitted: Events, tied: seq<bool>, log: Events, c: nat)
    requires |tied| == |admitted|
  {
    forall i :: 0 <= i < |admitted| ==> (admitted[i] in log <==> c > 0 && (tied[i] || Rank(tied, i) < c))
  }

  /** Every untied beacon beyond the first `page` is later than every tied one. */
  predicate TiedFirst(admitted: Events, tied: seq<bool>, page: nat)
    requires |tied| == |admitted|
  {
    forall i, j :: 0 <= i < |admitted| && 0 <= j < |admitted| && !tied[i] && Rank(tied, i) >= page && tied[j] ==>
      HlcLt(admitted[j].hlc, admitted[i].hlc)
  }

  /** Two untied beacons on either side of the boundary after the first `c`. */
  predicate Parted(tied: seq<bool>, c: nat, j: nat, i: nat)
    requires i < |tied| && j < |tied|
  {
    !tied[i] && !tied[j] && Rank(tied, j) < c <= Rank(tied, i)
  }

  /** No clock is shared across the boundary after the first `c` untied beacons. */
  predicate Separated(admitted: Events, tied: seq<bool>, c: nat)
    requires |tied| == |admitted|
  {
    forall i, j :: 0 <= i < |admitted| && 0 <= j < |admitted| && Parted(tied, c, j, i) ==>
      HlcLt(admitted[j].hlc, admitted[i].hlc)
  }

  /** The set flags after the first `c` set ones. */
  function From(flags: seq<bool>, c: nat): (f: seq<bool>)
    ensures |f| == |flags|
  {
    seq(|flags|, i requires 0 <= i < |flags| => flags[i] && Count(flags[..i]) >= c)
  }

  lemma {:induction false} CountFrom(flags: seq<bool>, c: nat, i: nat)
    requires i <= |flags|
    ensures Count(From(flags, c)[..i]) == if Count(flags[..i]) <= c then 0 else Count(flags[..i]) - c
  {
    if i > 0 {
      CountFrom(flags, c, i - 1);
      CountStep(From(flags, c), i - 1);
      CountStep(flags, i - 1);
      assert From(flags, c)[i - 1] <==> flags[i - 1] && Count(flags[..i - 1]) >= c;
      hide From, Count;
    }
  }

  lemma {:induction false} CountUntied(tied: seq<bool>, i: nat)
    requires i <= |tied|
    ensures Count(Untied(tied)[..i]) + Count(tied[..i]) == i
  {
    if i > 0 {
      CountUntied(tied, i - 1);
      CountStep(Untied(tied), i - 1);
      CountStep(tied, i - 1);
      assert Untied(tied)[i - 1] == !tied[i - 1];
      hide Untied, Count;
    }
  }

  lemma {:induction false} CountAll(flags: seq<bool>, i: nat)
    requires i <= |flags| && forall k :: 0 <= k < i ==> flags[k]
    ensures Count(flags[..i]) == i
  {
    if i > 0 {
      CountAll(flags, i - 1);
      CountStep(flags, i - 1);
    }
  }

  /** Ranks fill the untied beacons without gaps. */
  lemma {:induction false} RankReached(tied: seq<bool>, c: nat, n: nat) returns (i: nat)
    requires n <= |tied| && c < Count(Untied(tied)[..n])
    ensures i < n && !tied[i] && Rank(tied, i) == c
    decreases n
  {
    assert n > 0;
    CountStep(Untied(tied), n - 1);
    if c < Count(Untied(tied)[..n - 1]) {
      i := RankReached(tied, c, n - 1);
    } else {
      i := n - 1;
    }
  }

  lemma RankBelow(tied: seq<bool>, i: nat)
    requires i < |tied| && !tied[i]
    ensures Rank(tied, i) < Count(Untied(tied))
  {
    FlagFits(Untied(tied), i, Count(Untied(tied)));
  }

  /** Once the pages cover the untied beacons, everything is held, and not before. */
  lemma HeldUpToAll(admitted: Events, tied: seq<bool>, log: Events, c: nat)
    requires |tied| == |admitted| && HeldUpTo(admitted, tied, log, c) && c > 0
    ensures HoldsAll(log, admitted) <==> Count(Untied(tied)) <= c
  {
    hide Count, Untied;
    if Count(Untied(tied)) <= c {
      forall e | e in admitted ensures e in log {
        var i :| 0 <= i < |admitted| && admitted[i] == e;
        if !tied[i] {
          RankBelow(tied, i);
        }
      }
    } else {
      WholeUntied(tied);
      var i := RankReached(tied, c, |tied|);
      assert admitted[i] in admitted && admitted[i] !in log;
    }
  }

  lemma WholeUntied(tied: seq<bool>)
    ensures Untied(tied)[..|tied|] == Untied(tied)
    ensures Count(Untied(tied)) + Count(tied) == |tied|
  {
    assert tied[..|tied|] == tied;
    CountUntied(tied, |tied|);
  }

  // ----- one exchange -----

  /** What a run of exchanges with one responder keeps. */
  predicate Synced(decode: BeaconDecoder, admitted: Events, log: Events, nowMs: u64) {
    && HlcOrdered(log) && OnlyServed(log, admitted, nowMs) && Unique(admitted)
    && forall x :: x in admitted ==> Admissible(x, nowMs)
  }

  lemma SyncedStep(decode: BeaconDecoder, admitted: Events, log: Events, nowMs: u64, maxBeacons: nat)
    requires Synced(decode, admitted, log, nowMs)
    ensures Synced(decode, admitted, Exchanged(decode, admitted, log, nowMs, maxBeacons), nowMs)
  {
    ExchangeAdds(decode, admitted, log, nowMs, maxBeacons);
    hide Exchanged, HlcOrdered, OnlyServed, Unique, Admissible;
  }

  /** Position `i` after one exchange: kept, tied within the cap, or untied, later
      than everything held and within what the tied beacons leave of the cap. */
  lemma NextHolds(decode: BeaconDecoder, admitted: Events, log: Events, nowMs: u64, maxBeacons: nat, i: nat)
    requires Synced(decode, admitted, log, nowMs) && i < |admitted|
    ensures var tied := TiedFlags(decode, admitted);
            var backlog := Backlog(tied, AboveFlags(BeaconWatermarkOf(log, nowMs), admitted));
            && (admitted[i] in Exchanged(decode, admitted, log, nowMs, maxBeacons)
                <==> || admitted[i] in log
                     || (tied[i] && Count(tied[..i]) < maxBeacons)
                     || (backlog[i] && Count(backlog[..i]) < Leftover(tied, maxBeacons)))
            && (backlog[i] <==> !tied[i] && forall x :: x in admitted && x in log ==> HlcLt(x.hlc, admitted[i].hlc))
  {
    ExchangeAdds(decode, admitted, log, nowMs, maxBeacons);
    AboveIsLater(admitted, log, nowMs, admitted[i]);
    var tied, above := TiedFlags(decode, admitted), AboveFlags(BeaconWatermarkOf(log, nowMs), admitted);
    assert above[i] <==> Above(BeaconWatermarkOf(log, nowMs), admitted[i]);
    hide Exchanged, HlcOrdered, OnlyServed, Unique, Admissible, Above, AboveFlags, TiedFlags, HlcLt, Count, Leftover,
         BeaconWatermarkOf;
  }

  /** The requester is at a page boundary and nothing is stranded there. */
  predicate OnPage(admitted: Events, tied: seq<bool>, log: Events, c: nat, page: nat)
    requires |tied| == |admitted|
  {
    && HeldUpTo(admitted, tied, log, c)
    && (c > 0 ==> c >= page && TiedFirst(admitted, tied, page) && Separated(admitted, tied, c))
  }

  /** From the first `c` untied beacons, the untied ones later than everything held
      are exactly the rest. */
  lemma BacklogIsRest(admitted: Events, tied: seq<bool>, log: Events, c: nat, page: nat, i: nat)
    requires |tied| == |admitted| && i < |admitted| && !tied[i] && OnPage(admitted, tied, log, c, page)
    ensures (forall x :: x in admitted && x in log ==> HlcLt(x.hlc, admitted[i].hlc)) <==> Rank(tied, i) >= c
  {
    hide Rank, HlcLt;
    if Rank(tied, i) < c {
      assert admitted[i] in log;
      HlcTotal(admitted[i].hlc, admitted[i].hlc);
    } else {
      forall x | x in admitted && x in log ensures HlcLt(x.hlc, admitted[i].hlc) {
        var j :| 0 <= j < |admitted| && admitted[j] == x;
        assert tied[j] || Parted(tied, c, j, i);
      }
    }
  }

  lemma FromAt(tied: seq<bool>, c: nat, i: nat)
    requires i < |tied|
    ensures From(Untied(tied), c)[i] <==> !tied[i] && Rank(tied, i) >= c
    ensures Count(From(Untied(tied), c)[..i]) == if Rank(tied, i) <= c then 0 else Rank(tied, i) - c
    ensures tied[i] ==> Count(tied[..i]) < Count(tied)
  {
    CountFrom(Untied(tied), c, i);
    if tied[i] {
      FlagFits(tied, i, Count(tied));
    }
  }

  lemma BacklogIsFrom(decode: BeaconDecoder, admitted: Events, log: Events, nowMs: u64, maxBeacons: nat,
                      c: nat, page: nat)
    requires Synced(decode, admitted, log, nowMs) && OnPage(admitted, TiedFlags(decode, admitted), log, c, page)
    ensures Backlog(TiedFlags(decode, admitted), AboveFlags(BeaconWatermarkOf(log, nowMs), admitted))
         == From(Untied(TiedFlags(decode, admitted)), c)
  {
    hide *;
    var tied := TiedFlags(decode, admitted);
    var backlog := Backlog(tied, AboveFlags(BeaconWatermarkOf(log, nowMs), admitted));
    forall i | 0 <= i < |tied| ensures backlog[i] == From(Untied(tied), c)[i] {
      NextHolds(decode, admitted, log, nowMs, maxBeacons, i);
      FromAt(tied, c, i);
      if !tied[i] {
        BacklogIsRest(admitted, tied, log, c, page, i);
      }
    }
  }

  lemma NextPageAt(decode: BeaconDecoder, admitted: Events, log: Events, nowMs: u64, maxBeacons: nat,
                   c: nat, page: nat, i: nat)
    requires Synced(decode, admitted, log, nowMs) && OnPage(admitted, TiedFlags(decode, admitted), log, c, page)
    requires Count(TiedFlags(decode, admitted)) + page == maxBeacons && page > 0 && i < |admitted|
    ensures admitted[i] in Exchanged(decode, admitted, log, nowMs, maxBeacons)
       <==> TiedFlags(decode, admitted)[i] || Rank(TiedFlags(decode, admitted), i) < c + page
  {
    var tied := TiedFlags(decode, admitted);
    assert Leftover(tied, maxBeacons) == page;
    assert admitted[i] in log <==> c > 0 && (tied[i] || Rank(tied, i) < c);
    hide *;
    NextHolds(decode, admitted, log, nowMs, maxBeacons, i);
    BacklogIsFrom(decode, admitted, log, nowMs, maxBeacons, c, page);
    FromAt(tied, c, i);
  }

  /** While nothing is stranded, an exchange brings the tied beacons and the next
      page of untied ones. */
  lemma NextPage(decode: BeaconDecoder, admitted: Events, log: Events, nowMs: u64, maxBeacons: nat, c: nat, page: nat)
    requires Synced(decode, admitted, log, nowMs) && OnPage(admitted, TiedFlags(decode, admitted), log, c, page)
    requires Count(TiedFlags(decode, admitted)) + page == maxBeacons && page > 0
    ensures HeldUpTo(admitted, TiedFlags(decode, admitted),
                     Exchanged(decode, admitted, log, nowMs, maxBeacons), c + page)
  {
    hide OnPage, Synced, TiedFlags, Exchanged, Count, Rank;
    forall i | 0 <= i < |admitted|
      ensures admitted[i] in Exchanged(decode, admitted, log, nowMs, maxBeacons)
         <==> TiedFlags(decode, admitted)[i] || Rank(TiedFlags(decode, admitted), i) < c + page
    {
      NextPageAt(decode, admitted, log, nowMs, maxBeacons, c, page, i);
    }
  }

  // ----- stranded beacons -----

  /** An untied beacon the requester lacks and that is not later than one it holds. */
  predicate Stranded(admitted: Events, tied: seq<bool>, log: Events)
    requires |tied| == |admitted|
  {
    exists i, j :: 0 <= i < |admitted| && 0 <= j < |admitted| && StrandedAt(admitted, tied, log, i, j)
  }

  predicate StrandedAt(admitted: Events, tied: seq<bool>, log: Events, i: nat, j: nat)
    requires |tied| == |admitted| && i < |admitted| && j < |admitted|
  {
    !tied[i] && admitted[i] !in log && admitted[j] in log && !HlcLt(admitted[j].hlc, admitted[i].hlc)
  }

  /** It is never served again. */
  lemma PairStays(decode: BeaconDecoder, admitted: Events, log: Events, nowMs: u64, maxBeacons: nat, i: nat, j: nat)
    requires Synced(decode, admitted, log, nowMs) && i < |admitted| && j < |admitted|
    requires StrandedAt(admitted, TiedFlags(decode, admitted), log, i, j)
    ensures StrandedAt(admitted, TiedFlags(decode, admitted),
                       Exchanged(decode, admitted, log, nowMs, maxBeacons), i, j)
  {
    hide TiedFlags, AboveFlags, Backlog, BeaconWatermarkOf, Synced, Exchanged, HlcLt, Count, Leftover;
    NextHolds(decode, admitted, log, nowMs, maxBeacons, i);
    NextHolds(decode, admitted, log, nowMs, maxBeacons, j);
  }

  lemma StrandedStays(decode: BeaconDecoder, admitted: Events, log: Events, nowMs: u64, maxBeacons: nat)
    requires Synced(decode, admitted, log, nowMs) && Stranded(admitted, TiedFlags(decode, admitted), log)
    ensures Stranded(admitted, TiedFlags(decode, admitted), Exchanged(decode, admitted, log, nowMs, maxBeacons))
  {
    var tied := TiedFlags(decode, admitted);
    var i, j :| 0 <= i < |admitted| && 0 <= j < |admitted| && StrandedAt(admitted, tied, log, i, j);
    hide TiedFlags, Synced, Exchanged, StrandedAt;
    PairStays(decode, admitted, log, nowMs, maxBeacons, i, j);
  }

  lemma StrandedLacks(admitted: Events, tied: seq<bool>, log: Events)
    requires |tied| == |admitted| && Stranded(admitted, tied, log)
    ensures !HoldsAll(log, admitted)
  {
    var i, j :| 0 <= i < |admitted| && 0 <= j < |admitted| && StrandedAt(admitted, tied, log, i, j);
    assert admitted[i] in admitted;
  }

  /** A tied beacon later than an untied one beyond the first page strands it. */
  lemma TieStrands(admitted: Events, tied: seq<bool>, log: Events, page: nat)
    requires |tied| == |admitted| && page > 0 && HeldUpTo(admitted, tied, log, page)
    requires !TiedFirst(admitted, tied, page)
    ensures Stranded(admitted, tied, log)
  {
    hide Rank, HlcLt;
    var i, j :| 0 <= i < |admitted| && 0 <= j < |admitted| && !tied[i] && Rank(tied, i) >= page && tied[j]
      && !HlcLt(admitted[j].hlc, admitted[i].hlc);
    assert StrandedAt(admitted, tied, log, i, j);
  }

  /** So does a clock shared across a page boundary. */
  lemma SharedClockStrands(admitted: Events, tied: seq<bool>, log: Events, c: nat)
    requires |tied| == |admitted| && c > 0 && HeldUpTo(admitted, tied, log, c)
    requires !Separated(admitted, tied, c)
    ensures Stranded(admitted, tied, log)
  {
    hide Rank, HlcLt;
    var i, j :| 0 <= i < |admitted| && 0 <= j < |admitted| && Parted(tied, c, j, i)
      && !HlcLt(admitted[j].hlc, admitted[i].hlc);
    assert StrandedAt(admitted, tied, log, i, j);
  }

  // ----- whole runs -----

  /** A requester that exchanges with one responder, each side at the same clock. */
  datatype Session = Session(decode: BeaconDecoder, responder: Events, requester: Events, nowMs: u64, maxBeacons: nat)

  /** The responder's admitted beacons and which of them are tied. */
  function Beacons(s: Session): Events {
    Admitted(s.responder, s.nowMs)
  }

  function Ties(s: Session): (tied: seq<bool>)
    ensures |tied| == |Beacons(s)|
  {
    TiedFlags(s.decode, Beacons(s))
  }

  /** The requester's log after `r` rounds. */
  function LogAfter(s: Session, r: nat): Events {
    Rounds(s.decode, s.responder, s.requester, s.nowMs, s.maxBeacons, r)
  }

  /** How many untied beacons `r` pages hold. */
  function Paged(r: nat, page: nat): nat {
    r * page
  }

  lemma PagedStep(r: nat, page: nat)
    ensures Paged(r + 1, page) == Paged(r, page) + page && Paged(0, page) == 0
  {
  }

  lemma PagedGrows(a: nat, b: nat, page: nat)
    requires a <= b
    ensures Paged(a, page) <= Paged(b, page)
    ensures b > 0 ==> Paged(b, page) >= page
  {
    assert b * page == a * page + (b - a) * page;
    if b > 0 {
      assert b * page == (b - 1) * page + page;
    }
  }

  /** The responder keeps a log in clock order, and the requester starts with none
      of its beacons. */
  predicate Starts(s: Session) {
    && HlcOrdered(s.responder) && Unique(Beacons(s))
    && HlcOrdered(s.requester) && Admitted(s.requester, s.nowMs) == []
  }

  predicate SyncedAfter(s: Session, r: nat) {
    Synced(s.decode, Beacons(s), LogAfter(s, r), s.nowMs)
  }

  lemma NothingHeld(s: Session)
    requires Starts(s)
    ensures HeldUpTo(Beacons(s), Ties(s), LogAfter(s, 0), 0)
    ensures SyncedAfter(s, 0)
  {
    hide Rank, Admissible, HlcOrdered, Unique;
    forall x ensures x in Beacons(s) ==> Admissible(x, s.nowMs) && x !in s.requester {
      AdmittedMember(s.responder, s.nowMs, x);
      AdmittedMember(s.requester, s.nowMs, x);
    }
    forall x | x in s.requester && Admissible(x, s.nowMs) ensures false {
      AdmittedMember(s.requester, s.nowMs, x);
    }
  }

  lemma NextLog(s: Session, r: nat)
    ensures LogAfter(s, r + 1) == Exchanged(s.decode, Beacons(s), LogAfter(s, r), s.nowMs, s.maxBeacons)
  {
  }

  lemma {:induction false} RunSynced(s: Session, r: nat)
    requires Starts(s)
    ensures SyncedAfter(s, r)
  {
    if r == 0 {
      NothingHeld(s);
    } else {
      hide LogAfter, Beacons, Synced, Exchanged, Starts;
      RunSynced(s, r - 1);
      SyncedStep(s.decode, Beacons(s), LogAfter(s, r - 1), s.nowMs, s.maxBeacons);
      NextLog(s, r - 1);
    }
  }

  predicate StrandedAfter(s: Session, r: nat) {
    Stranded(Beacons(s), Ties(s), LogAfter(s, r))
  }

  predicate HeldAfter(s: Session, r: nat, c: nat) {
    HeldUpTo(Beacons(s), Ties(s), LogAfter(s, r), c)
  }

  predicate TiesFirst(s: Session, page: nat) {
    TiedFirst(Beacons(s), Ties(s), page)
  }

  predicate Boundary(s: Session, c: nat) {
    Separated(Beacons(s), Ties(s), c)
  }

  /** The tied beacons leave `page` of the cap to the untied ones. */
  predicate Leaves(s: Session, page: nat) {
    Count(Ties(s)) + page == s.maxBeacons
  }

  lemma PageStep(s: Session, r: nat, c: nat, page: nat)
    requires SyncedAfter(s, r) && page > 0 && Leaves(s, page) && HeldAfter(s, r, c)
    requires c > 0 ==> c >= page && TiesFirst(s, page) && Boundary(s, c)
    ensures HeldAfter(s, r + 1, c + page)
  {
    hide Synced, Exchanged, LogAfter, Beacons, Count, TiedFlags, HeldUpTo, TiedFirst, Separated;
    NextLog(s, r);
    NextPage(s.decode, Beacons(s), LogAfter(s, r), s.nowMs, s.maxBeacons, c, page);
  }

  lemma StrandStep(s: Session, r: nat)
    requires SyncedAfter(s, r) && StrandedAfter(s, r)
    ensures StrandedAfter(s, r + 1)
  {
    hide Synced, Exchanged, LogAfter, Beacons, TiedFlags, Stranded;
    NextLog(s, r);
    StrandedStays(s.decode, Beacons(s), LogAfter(s, r), s.nowMs, s.maxBeacons);
  }

  lemma {:induction false} StrandedForGood(s: Session, k: nat, r: nat)
    requires Starts(s) && k <= r && StrandedAfter(s, k)
    ensures StrandedAfter(s, r)
  {
    hide *;
    if k < r {
      StrandedForGood(s, k, r - 1);
      RunSynced(s, r - 1);
      StrandStep(s, r - 1);
    }
  }

  lemma UnpageableStrands(s: Session, r: nat, c: nat, page: nat)
    requires HeldAfter(s, r, c) && c > 0
    requires !Boundary(s, c) || (c == page && !TiesFirst(s, page))
    ensures StrandedAfter(s, r)
  {
    hide LogAfter, Beacons, Ties, Stranded, HeldUpTo, TiedFirst, Separated;
    if !Boundary(s, c) {
      SharedClockStrands(Beacons(s), Ties(s), LogAfter(s, r), c);
    } else {
      TieStrands(Beacons(s), Ties(s), LogAfter(s, r), page);
    }
  }

  lemma HeldOrStranded(s: Session, r: nat, c: nat, page: nat)
    requires Starts(s) && page > 0 && Leaves(s, page) && HeldAfter(s, r, c)
    requires c == 0 || (c >= page && TiesFirst(s, page))
    ensures StrandedAfter(s, r + 1) || (HeldAfter(s, r + 1, c + page) && TiesFirst(s, page))
  {
    hide *;
    RunSynced(s, r);
    if c > 0 && !Boundary(s, c) {
      UnpageableStrands(s, r, c, page);
      StrandStep(s, r);
    } else {
      PageStep(s, r, c, page);
      if c == 0 && !TiesFirst(s, page) {
        UnpageableStrands(s, r + 1, page, page);
      }
    }
  }

  lemma StartHeld(s: Session, page: nat)
    requires Starts(s)
    ensures HeldAfter(s, 0, Paged(0, page)) && Paged(0, page) == 0
  {
    hide Starts;
    PagedStep(0, page);
    NothingHeld(s);
  }

  /** After `r` rounds the requester is at the r-th page boundary, with no untied
      beacon caught below a tied one, or some beacon is stranded. */
  lemma {:induction false} RunProgress(s: Session, r: nat, page: nat)
    requires Starts(s) && page > 0 && Leaves(s, page)
    ensures StrandedAfter(s, r) || (HeldAfter(s, r, Paged(r, page)) && (r > 0 ==> TiesFirst(s, page)))
  {
    hide *;
    StartHeld(s, page);
    if r > 0 {
      PagedStep(r - 1, page);
      PagedGrows(0, r - 1, page);
      RunProgress(s, r - 1, page);
      if StrandedAfter(s, r - 1) {
        RunSynced(s, r - 1);
        StrandStep(s, r - 1);
      } else {
        HeldOrStranded(s, r - 1, Paged(r - 1, page), page);
      }
    }
  }

  /** Pages can be taken without stranding anything: every untied beacon beyond the
      first page is later than every tied one, and no two untied beacons on either
      side of a page boundary share a clock. */
  ghost predicate Pageable(s: Session, page: nat) {
    TiesFirst(s, page) && forall k: nat :: k > 0 ==> Boundary(s, Paged(k, page))
  }

  lemma PageableAt(s: Session, page: nat, k: nat)
    requires Pageable(s, page)
    ensures TiesFirst(s, page) && (k > 0 ==> Boundary(s, Paged(k, page)))
  {
  }

  lemma {:induction false} PageableRun(s: Session, r: nat, page: nat)
    requires Starts(s) && page > 0 && Leaves(s, page) && Pageable(s, page)
    ensures HeldAfter(s, r, Paged(r, page))
  {
    hide *;
    StartHeld(s, page);
    if r > 0 {
      PageableAt(s, page, r - 1);
      PagedStep(r - 1, page);
      PagedGrows(0, r - 1, page);
      PageableRun(s, r - 1, page);
      RunSynced(s, r - 1);
      PageStep(s, r - 1, Paged(r - 1, page), page);
    }
  }

  predicate AllHeldAfter(s: Session, r: nat) {
    HoldsAll(LogAfter(s, r), Beacons(s))
  }

  function UntiedCount(s: Session): nat {
    Count(Untied(Ties(s)))
  }

  lemma HeldAfterAll(s: Session, r: nat, c: nat)
    requires HeldAfter(s, r, c) && c > 0
    ensures AllHeldAfter(s, r) <==> UntiedCount(s) <= c
  {
    hide Ties, Beacons, LogAfter, HeldUpTo, HoldsAll, Count, Untied;
    HeldUpToAll(Beacons(s), Ties(s), LogAfter(s, r), c);
  }

  lemma StrandedAfterLacks(s: Session, r: nat)
    requires StrandedAfter(s, r)
    ensures !AllHeldAfter(s, r)
  {
    StrandedLacks(Beacons(s), Ties(s), LogAfter(s, r));
  }

  /** Nothing lies beyond a boundary that covers all untied beacons. */
  lemma LastBoundary(s: Session, c: nat)
    requires UntiedCount(s) <= c
    ensures Boundary(s, c)
  {
    hide Rank, HlcLt;
    var tied := Ties(s);
    forall i | 0 <= i < |tied| && !tied[i] ensures Rank(tied, i) < c {
      RankBelow(tied, i);
    }
  }

  lemma BoundaryWasCrossed(s: Session, r: nat, page: nat, k: nat)
    requires Starts(s) && page > 0 && Leaves(s, page) && AllHeldAfter(s, r) && UntiedCount(s) <= Paged(r, page) && k > 0
    ensures Boundary(s, Paged(k, page))
  {
    hide *;
    if k >= r {
      PagedGrows(r, k, page);
      LastBoundary(s, Paged(k, page));
    } else {
      PagedGrows(0, k, page);
      RunProgress(s, k, page);
      if !Boundary(s, Paged(k, page)) {
        if !StrandedAfter(s, k) {
          UnpageableStrands(s, k, Paged(k, page), page);
        }
        StrandedForGood(s, k, r);
        StrandedAfterLacks(s, r);
        assert false;
      }
    }
  }

  /** With room for untied beacons, the requester holds everything after `r` rounds
      exactly when they are pageable and the pages cover them. */
  lemma PagingWithRoom(s: Session, r: nat, page: nat)
    requires Starts(s) && page > 0 && Leaves(s, page) && r > 0
    ensures AllHeldAfter(s, r) <==> Pageable(s, page) && UntiedCount(s) <= Paged(r, page)
  {
    hide Starts, Leaves, AllHeldAfter, UntiedCount, Paged, HeldAfter, StrandedAfter, TiesFirst, Boundary;
    PagedGrows(0, r, page);
    RunProgress(s, r, page);
    if AllHeldAfter(s, r) {
      if StrandedAfter(s, r) {
        StrandedAfterLacks(s, r);
        assert false;
      }
      HeldAfterAll(s, r, Paged(r, page));
      forall k: nat | k > 0 ensures Boundary(s, Paged(k, page)) {
        BoundaryWasCrossed(s, r, page, k);
      }
    } else if Pageable(s, page) {
      PageableRun(s, r, page);
      HeldAfterAll(s, r, Paged(r, page));
    }
  }

  // ----- when they do not -----

  lemma NothingMissed(s: Session, r: nat)
    requires SyncedAfter(s, r) && AllHeldAfter(s, r)
    ensures AllHeldAfter(s, r + 1)
  {
    hide LogAfter, Beacons, Exchanged, Served, BeaconWatermarkOf;
    NextLog(s, r);
    var served := Served(s.decode, Beacons(s), BeaconWatermarkOf(LogAfter(s, r), s.nowMs), s.maxBeacons);
    ExchangedIs(s.decode, Beacons(s), LogAfter(s, r), s.nowMs, s.maxBeacons);
    forall e | e in Beacons(s) ensures e in LogAfter(s, r + 1) {
      AdoptAllMember(LogAfter(s, r), served, e);
    }
  }

  lemma ExchangedIs(decode: BeaconDecoder, admitted: Events, log: Events, nowMs: u64, maxBeacons: nat)
    ensures Exchanged(decode, admitted, log, nowMs, maxBeacons)
         == AdoptAll(log, Served(decode, admitted, BeaconWatermarkOf(log, nowMs), maxBeacons))
  {
  }

  lemma {:induction false} HeldForGood(s: Session, k: nat, r: nat)
    requires Starts(s) && k <= r && AllHeldAfter(s, k)
    ensures AllHeldAfter(s, r)
  {
    hide *;
    if k < r {
      HeldForGood(s, k, r - 1);
      RunSynced(s, r - 1);
      NothingMissed(s, r - 1);
    }
  }

  /** A log that fits one reply is served whole, ties and all. */
  lemma OneReplySuffices(s: Session)
    requires Starts(s) && |Beacons(s)| <= s.maxBeacons
    ensures AllHeldAfter(s, 1)
  {
    var admitted, tied := Beacons(s), Ties(s);
    NothingHeld(s);
    NextLog(s, 0);
    WholeUntied(tied);
    assert OnPage(admitted, tied, LogAfter(s, 0), 0, 0);
    assert Leftover(tied, s.maxBeacons) == s.maxBeacons - Count(tied);
    hide LogAfter, Beacons, Ties, TiedFlags, Exchanged, Synced, OnPage, Count, Untied, From, Rank, Leftover, Starts;
    forall e | e in admitted ensures e in LogAfter(s, 1) {
      var i :| 0 <= i < |admitted| && admitted[i] == e;
      TiesAre(s);
      NextHolds(s.decode, admitted, LogAfter(s, 0), s.nowMs, s.maxBeacons, i);
      BacklogIsFrom(s.decode, admitted, LogAfter(s, 0), s.nowMs, s.maxBeacons, 0, 0);
      FromAt(tied, 0, i);
      if !tied[i] {
        RankBelow(tied, i);
      }
    }
  }

  lemma TiesAre(s: Session)
    ensures Ties(s) == TiedFlags(s.decode, Beacons(s))
  {
  }

  lemma {:induction false} WithinCount(flags: seq<bool>, budget: nat, i: nat)
    requires i <= |flags|
    ensures Count(Within(flags, budget)[..i]) == Least(budget, Count(flags[..i]))
  {
    if i > 0 {
      WithinCount(flags, budget, i - 1);
      WithinStep(flags, budget, i - 1);
      CountStep(Within(flags, budget), i - 1);
    }
  }

  /** A budget below the number of flags leaves one out. */
  lemma OneLeftOut(flags: seq<bool>, budget: nat) returns (i: nat)
    requires budget < |flags|
    ensures i < |flags| && !(flags[i] && Count(flags[..i]) < budget)
  {
    var n := |flags|;
    if forall k :: 0 <= k < n ==> Within(flags, budget)[k] {
      CountAll(Within(flags, budget), n);
      WithinCount(flags, budget, n);
      assert false;
    }
    i :| 0 <= i < n && !Within(flags, budget)[i];
  }

  /** Position `i` is not among the first tied beacons, as many as the cap. */
  predicate Outside(s: Session, i: nat) {
    i < |Beacons(s)| && !(Ties(s)[i] && Count(Ties(s)[..i]) < s.maxBeacons)
  }

  predicate Lacks(s: Session, r: nat, i: nat) {
    i < |Beacons(s)| && Beacons(s)[i] !in LogAfter(s, r)
  }

  lemma OutsideStep(s: Session, r: nat, i: nat)
    requires SyncedAfter(s, r) && Count(Ties(s)) >= s.maxBeacons && Outside(s, i) && Lacks(s, r, i)
    ensures Lacks(s, r + 1, i)
  {
    assert Leftover(Ties(s), s.maxBeacons) == 0;
    hide LogAfter, Beacons, TiedFlags, Exchanged, Synced, Count, Leftover;
    NextLog(s, r);
    NextHolds(s.decode, Beacons(s), LogAfter(s, r), s.nowMs, s.maxBeacons, i);
  }

  lemma OutsideLacked(s: Session, i: nat)
    requires Starts(s) && Outside(s, i)
    ensures Lacks(s, 0, i)
  {
    NothingHeld(s);
    hide Starts, Beacons, LogAfter, Ties, Count, Rank;
  }

  /** When the tied beacons take the whole cap, every reply carries the same first
      ones, and a beacon outside them is never served. */
  lemma {:induction false} OutsideNeverServed(s: Session, r: nat, i: nat)
    requires Starts(s) && Count(Ties(s)) >= s.maxBeacons && Outside(s, i)
    ensures Lacks(s, r, i)
  {
    hide *;
    if r == 0 {
      OutsideLacked(s, i);
    } else {
      OutsideNeverServed(s, r - 1, i);
      RunSynced(s, r - 1);
      OutsideStep(s, r - 1, i);
    }
  }

  lemma NoRoomLacks(s: Session, r: nat)
    requires Starts(s) && Count(Ties(s)) >= s.maxBeacons && |Beacons(s)| > s.maxBeacons
    ensures !AllHeldAfter(s, r)
  {
    hide Starts, Beacons, LogAfter, Ties, Count;
    var i := OneLeftOut(Ties(s), s.maxBeacons);
    OutsideNeverServed(s, r, i);
    assert Beacons(s)[i] in Beacons(s);
  }

  // ----- the exact condition -----

  /** What decides whether paging ends: everything fits one reply, or the tied
      beacons leave room and the untied ones are pageable in that room. */
  ghost predicate Completes(s: Session) {
    || |Beacons(s)| <= s.maxBeacons
    || (Count(Ties(s)) < s.maxBeacons && Pageable(s, s.maxBeacons - Count(Ties(s))))
  }

  /** The rounds cover the untied beacons, at a page a round. */
  predicate Covers(s: Session, r: nat) {
    || |Beacons(s)| <= s.maxBeacons
    || (Count(Ties(s)) < s.maxBeacons && UntiedCount(s) <= Paged(r, s.maxBeacons - Count(Ties(s))))
  }

  /** For every log, ties or none: the requester holds every admitted beacon after
      `r` rounds exactly when there is none, or there was a round, paging can
      complete and the rounds cover the untied beacons. */
  lemma PagingExact(s: Session, r: nat)
    requires Starts(s)
    ensures AllHeldAfter(s, r) <==> Beacons(s) == [] || (r > 0 && Completes(s) && Covers(s, r))
  {
    var n, t := |Beacons(s)|, Count(Ties(s));
    hide Starts, Beacons, Ties, Count, Pageable, UntiedCount, Paged, AllHeldAfter;
    if r == 0 {
      NothingHeldAtAll(s);
    } else if n <= s.maxBeacons {
      OneReplySuffices(s);
      HeldForGood(s, 1, r);
    } else if t >= s.maxBeacons {
      NoRoomLacks(s, r);
    } else {
      PagingWithRoom(s, r, s.maxBeacons - t);
    }
  }

  lemma NothingHeldAtAll(s: Session)
    requires Starts(s)
    ensures AllHeldAfter(s, 0) <==> Beacons(s) == []
  {
    NothingHeld(s);
    if Beacons(s) != [] {
      assert Beacons(s)[0] in Beacons(s);
    }
  }

  /** Hence the requester ever holds everything exactly when paging can complete. */
  lemma PagingEndsIff(s: Session)
    requires Starts(s)
    ensures (exists r :: AllHeldAfter(s, r)) <==> Completes(s)
  {
    hide Starts, AllHeldAfter, Completes;
    forall r ensures AllHeldAfter(s, r) ==> Completes(s) {
      PagingExact(s, r);
      NoBeaconsComplete(s);
    }
    if Completes(s) {
      var r := UntiedCount(s) + 1;
      EnoughRounds(s);
      PagingExact(s, r);
    }
  }

  lemma NoBeaconsComplete(s: Session)
    ensures Beacons(s) == [] ==> Completes(s)
  {
  }

  lemma EnoughRounds(s: Session)
    requires Completes(s)
    ensures Covers(s, UntiedCount(s) + 1)
  {
    if |Beacons(s)| > s.maxBeacons {
      PagedAtLeast(UntiedCount(s) + 1, s.maxBeacons - Count(Ties(s)));
    }
  }

  lemma {:induction false} PagedAtLeast(r: nat, page: nat)
    requires page > 0
    ensures Paged(r, page) >= r
  {
    PagedStep(0, page);
    if r > 0 {
      PagedAtLeast(r - 1, page);
      PagedStep(r - 1, page);
    }
  }

  /** The untied beacon `i` is missing below the held beacon `j`. */
  predicate LostBelow(s: Session, r: nat, i: nat, j: nat) {
    i < |Beacons(s)| && j < |Beacons(s)| && StrandedAt(Beacons(s), Ties(s), LogAfter(s, r), i, j)
  }

  lemma LostStep(s: Session, r: nat, i: nat, j: nat)
    requires SyncedAfter(s, r) && LostBelow(s, r, i, j)
    ensures LostBelow(s, r + 1, i, j)
  {
    hide Synced, Exchanged, LogAfter, Beacons, TiedFlags, StrandedAt;
    NextLog(s, r);
    PairStays(s.decode, Beacons(s), LogAfter(s, r), s.nowMs, s.maxBeacons, i, j);
  }

  lemma LostAtFirst(s: Session, i: nat, j: nat)
    requires Starts(s) && i < |Beacons(s)| && j < |Beacons(s)| && Count(Ties(s)) < s.maxBeacons
    requires !Ties(s)[i] && Rank(Ties(s), i) >= s.maxBeacons - Count(Ties(s))
    requires Ties(s)[j] && !HlcLt(Beacons(s)[j].hlc, Beacons(s)[i].hlc)
    ensures LostBelow(s, 1, i, j)
  {
    var page := s.maxBeacons - Count(Ties(s));
    RunSynced(s, 0);
    StartHeld(s, page);
    hide Starts, SyncedAfter, LogAfter, Count, Rank, HlcLt, Beacons, Ties;
    PageStep(s, 0, 0, page);
  }

  /** An untied beacon that the first reply leaves out is lost for good if it is not
      later than some tied one: no later reply carries it. */
  lemma {:induction false} BelowATieIsLost(s: Session, r: nat, i: nat, j: nat)
    requires Starts(s) && r > 0 && i < |Beacons(s)| && j < |Beacons(s)| && Count(Ties(s)) < s.maxBeacons
    requires !Ties(s)[i] && Rank(Ties(s), i) >= s.maxBeacons - Count(Ties(s))
    requires Ties(s)[j] && !HlcLt(Beacons(s)[j].hlc, Beacons(s)[i].hlc)
    ensures LostBelow(s, r, i, j)
  {
    hide *;
    if r == 1 {
      LostAtFirst(s, i, j);
    } else {
      BelowATieIsLost(s, r - 1, i, j);
      RunSynced(s, r - 1);
      LostStep(s, r - 1, i, j);
    }
  }

  function PairDecoder(payload: seq<byte>): Option<(Bytes32, Bytes32)> {
    if |payload| == 2 then Some((seq(32, _ => payload[0]), seq(32, _ => payload[1]))) else None
  }

  function BeaconAt(wallMs: u64, hash: byte, output: byte): CommitteeEvent {
    CommitteeEvent(VrfBeacon, 0, Hlc(wallMs, 0, []), [hash, output])
  }

  /** Two old beacons, a later tied pair and a cap of three. */
  function CappedPair(): Session {
    Session(PairDecoder,
            [BeaconAt(1000, 0x55, 0x0A), BeaconAt(2000, 0x66, 0x0B), BeaconAt(3000, 0x44, 1), BeaconAt(4000, 0x44, 2)],
            [], 1_000_000_000, 3)
  }

  lemma {:induction false} AllAdmitted(log: Events, nowMs: u64)
    requires forall e :: e in log ==> Admissible(e, nowMs)
    ensures Admitted(log, nowMs) == log
  {
    if log != [] {
      AllAdmitted(log[1..], nowMs);
      assert log == [log[0]] + log[1..];
    }
  }

  lemma BeaconDecodes(wallMs: u64, hash: byte, output: byte)
    ensures var d := CappedPair().decode(BeaconAt(wallMs, hash, output).payload);
            d.Some? && d.value.0[0] == hash && d.value.1[0] == output
  {
    assert CappedPair().decode == PairDecoder;
  }

  lemma CappedPairStarts()
    ensures Starts(CappedPair()) && Beacons(CappedPair()) == CappedPair().responder
  {
    var s := CappedPair();
    hide Admitted, HlcOrdered, Unique;
    AllAdmitted(s.responder, s.nowMs);
    AllAdmitted(s.requester, s.nowMs);
    RisingWalls(s.responder);
    RisingWalls(s.requester);
  }

  lemma RisingWalls(log: Events)
    requires forall i, j :: 0 <= i < j < |log| ==> log[i].hlc.wallMs < log[j].hlc.wallMs
    ensures HlcOrdered(log) && Unique(log)
  {
  }

  lemma PairIsTied(log: Events)
    requires |log| == 4 && log[2] == BeaconAt(3000, 0x44, 1) && log[3] == BeaconAt(4000, 0x44, 2)
    ensures Tied(CappedPair().decode, log, log[2]) && Tied(CappedPair().decode, log, log[3])
  {
    var decode := CappedPair().decode;
    BeaconDecodes(3000, 0x44, 1);
    BeaconDecodes(4000, 0x44, 2);
    hide CappedPair, BeaconAt;
    var hash := decode(log[2].payload).value.0;
    assert decode(log[3].payload).value.0 == hash;
    assert Conflict(decode, log[2], log[3], hash);
  }

  lemma LoneHashUntied(decode: BeaconDecoder, log: Events, e: CommitteeEvent)
    requires decode(e.payload).Some?
    requires forall x :: x in log && x != e ==>
               decode(x.payload).None? || decode(x.payload).value.0 != decode(e.payload).value.0
    ensures !Tied(decode, log, e)
  {
  }

  lemma OldUntied(log: Events, e: CommitteeEvent, wallMs: u64, hash: byte, output: byte)
    requires e == BeaconAt(wallMs, hash, output) && log == CappedPair().responder
    requires forall x :: x in log && x != e ==> |x.payload| == 2 && x.payload[0] != hash
    ensures !Tied(CappedPair().decode, log, e)
  {
    var decode := CappedPair().decode;
    BeaconDecodes(wallMs, hash, output);
    forall x | x in log && x != e
      ensures decode(x.payload).None? || decode(x.payload).value.0 != decode(e.payload).value.0
    {
      BeaconDecodes(x.hlc.wallMs, x.payload[0], x.payload[1]);
      assert x == BeaconAt(x.hlc.wallMs, x.payload[0], x.payload[1]);
    }
    hide CappedPair, BeaconAt, Tied;
    LoneHashUntied(decode, log, e);
  }

  lemma TiesOfFour(s: Session)
    requires |Beacons(s)| == 4
    requires !Tied(s.decode, Beacons(s), Beacons(s)[0]) && !Tied(s.decode, Beacons(s), Beacons(s)[1])
    requires Tied(s.decode, Beacons(s), Beacons(s)[2]) && Tied(s.decode, Beacons(s), Beacons(s)[3])
    ensures Ties(s) == [false, false, true, true]
  {
    hide Tied, Beacons;
  }

  lemma CappedPairTies()
    ensures Ties(CappedPair()) == [false, false, true, true]
  {
    var log := CappedPair().responder;
    PairIsTied(log);
    OldUntied(log, log[0], 1000, 0x55, 0x0A);
    OldUntied(log, log[1], 2000, 0x66, 0x0B);
    hide *;
    CappedPairStarts();
    CappedPairFour();
    TiesOfFour(CappedPair());
  }

  lemma CappedPairFour()
    ensures |CappedPair().responder| == 4 && CappedPair().maxBeacons == 3
    ensures !HlcLt(CappedPair().responder[3].hlc, CappedPair().responder[1].hlc)
  {
  }

  lemma CountOfFour()
    ensures Count([false, false, true, true]) == 2 && Rank([false, false, true, true], 1) == 1
  {
    var tied := [false, false, true, true];
    for i := 0 to 4
      invariant Count(tied[..i]) == if i < 3 then 0 else i - 2
    {
      CountStep(tied, i);
    }
    assert tied[..4] == tied;
    CountUntied(tied, 1);
  }

  lemma SecondOfFourIsLost(s: Session, r: nat)
    requires Starts(s) && |Beacons(s)| == 4 && Ties(s) == [false, false, true, true] && s.maxBeacons == 3
    requires !HlcLt(Beacons(s)[3].hlc, Beacons(s)[1].hlc)
    ensures Beacons(s)[1] !in LogAfter(s, r)
  {
    hide Starts, Beacons, LogAfter, HlcLt;
    if r == 0 {
      NothingHeldAtAll(s);
      NothingHeld(s);
    } else {
      CountOfFour();
      BelowATieIsLost(s, r, 1, 3);
    }
  }

  /** The first reply carries the first old beacon and the pair, and no number of
      rounds brings the second. */
  lemma SecondOldIsLost(r: nat)
    ensures Starts(CappedPair()) && CappedPair().responder[1] in Beacons(CappedPair())
    ensures CappedPair().responder[1] !in LogAfter(CappedPair(), r)
  {
    hide *;
    CappedPairStarts();
    CappedPairTies();
    CappedPairFour();
    SecondOfFourIsLost(CappedPair(), r);
  }

  /** Once the requester holds everything, only tied beacons ride the replies. */
  lemma CaughtUpServesTies(s: Session, r: nat, e: CommitteeEvent)
    requires Starts(s) && AllHeldAfter(s, r)
    requires e in Served(s.decode, Beacons(s), BeaconWatermarkOf(LogAfter(s, r), s.nowMs), s.maxBeacons)
    ensures Tied(s.decode, Beacons(s), e)
  {
    RunSynced(s, r);
    hide LogAfter, Beacons, Served, Tied, BeaconWatermarkOf, Above, HlcOrdered, Admissible, HlcLt;
    ServedMember(s.decode, Beacons(s), BeaconWatermarkOf(LogAfter(s, r), s.nowMs), s.maxBeacons, e);
    AboveIsLater(Beacons(s), LogAfter(s, r), s.nowMs, e);
    HlcTotal(e.hlc, e.hlc);
  }

  lemma RankMonotone(tied: seq<bool>, a: nat, b: nat)
    requires a <= b < |tied|
    ensures Rank(tied, a) <= Rank(tied, b)
  {
    CountPrefix(Untied(tied)[..b], a);
    assert Untied(tied)[..b][..a] == Untied(tied)[..a];
  }

  lemma DistinctSeparates(admitted: Events, tied: seq<bool>, c: nat)
    requires |tied| == |admitted| && HlcOrdered(admitted) && HlcDistinct(admitted)
    ensures Separated(admitted, tied, c)
  {
    hide Rank, HlcLt;
    forall i, j | 0 <= i < |admitted| && 0 <= j < |admitted| && Parted(tied, c, j, i)
      ensures HlcLt(admitted[j].hlc, admitted[i].hlc)
    {
      if i <= j {
        RankMonotone(tied, i, j);
      }
      HlcTotal(admitted[j].hlc, admitted[i].hlc);
    }
  }

  /** Paging completes for every log with distinct clocks and no ties. */
  lemma DistinctUntiedCompletes(s: Session)
    requires Starts(s) && HlcDistinct(Beacons(s)) && NoTies(s.decode, Beacons(s)) && s.maxBeacons > 0
    ensures Completes(s)
  {
    var admitted, tied := Beacons(s), Ties(s);
    AdmittedOrdered(s.responder, s.nowMs);
    NoneTied(s);
    CountNone(tied);
    hide Starts, Beacons, Ties, NoTies, HlcDistinct, HlcOrdered, HlcLt, Rank, Count, Separated, Paged;
    forall k: nat | k > 0 ensures Boundary(s, Paged(k, s.maxBeacons)) {
      DistinctSeparates(admitted, tied, Paged(k, s.maxBeacons));
    }
    assert TiesFirst(s, s.maxBeacons);
  }

  lemma NoneTied(s: Session)
    requires NoTies(s.decode, Beacons(s))
    ensures forall i :: 0 <= i < |Ties(s)| ==> !Ties(s)[i]
  {
    hide Tied, Admitted;
    forall i | 0 <= i < |Ties(s)| ensures !Ties(s)[i] {
      assert Beacons(s)[i] in Beacons(s);
    }
  }
}
