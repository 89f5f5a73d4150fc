/** The two-pass budgeted beacon selection of `select_catchup` and the paging it
    yields (`src-tauri/src/community_dfrost_catchup.rs`). */
module CatchupPaging {
  import opened Prelude
  import opened CatchupBeacons

  // ----- counting flags -----

  function Count(flags: seq<bool>): nat {
    if flags == [] then 0
    else Count(flags[..|flags| - 1]) + if flags[|flags| - 1] then 1 else 0
  }

  function Least(a: nat, b: nat): nat {
    if a <= b then a else b
  }

  lemma CountStep(flags: seq<bool>, i: nat)
    requires i < |flags|
    ensures Count(flags[..i + 1]) == Count(flags[..i]) + if flags[i] then 1 else 0
  {
    assert flags[..i + 1][..i] == flags[..i];
  }

  lemma {:induction false} CountPrefix(flags: seq<bool>, i: nat)
    requires i <= |flags|
    ensures Count(flags[..i]) <= Count(flags)
    decreases |flags| - i
  {
    if i == |flags| {
      assert flags[..i] == flags;
    } else {
      CountStep(flags, i);
      CountPrefix(flags, i + 1);
    }
  }

  /** The items whose flag is set, in order. */
  function Emit(items: seq<CommitteeEvent>, flags: seq<bool>): seq<CommitteeEvent>
    requires |items| == |flags|
  {
    if items == [] then []
    else
      var n := |items| - 1;
      Emit(items[..n], flags[..n]) + if flags[n] then [items[n]] else []
  }

  lemma EmitStep(items: seq<CommitteeEvent>, flags: seq<bool>, i: nat)
    requires i < |items| == |flags|
    ensures Emit(items[..i + 1], flags[..i + 1]) == Emit(items[..i], flags[..i]) + if flags[i] then [items[i]] else []
  {
    assert items[..i + 1][..i] == items[..i] && flags[..i + 1][..i] == flags[..i];
  }

  lemma {:induction false} EmitCount(items: seq<CommitteeEvent>, flags: seq<bool>)
    requires |items| == |flags|
    ensures |Emit(items, flags)| == Count(flags)
  {
    if items != [] {
      EmitCount(items[..|items| - 1], flags[..|items| - 1]);
    }
  }

  lemma {:induction false} EmitMember(items: seq<CommitteeEvent>, flags: seq<bool>, e: CommitteeEvent)
    requires |items| == |flags|
    ensures e in Emit(items, flags) <==> exists i :: 0 <= i < |items| && flags[i] && items[i] == e
  {
    if items != [] {
      var n := |items| - 1;
      EmitMember(items[..n], flags[..n], e);
      if i :| 0 <= i < |items| && flags[i] && items[i] == e {
        if i < n {
          assert flags[..n][i] && items[..n][i] == e;
        }
      }
      if e in Emit(items[..n], flags[..n]) {
        var i :| 0 <= i < n && flags[..n][i] && items[..n][i] == e;
        assert flags[i] && items[i] == e;
      }
    }
  }

  lemma {:induction false} EmitOrdered(items: seq<CommitteeEvent>, flags: seq<bool>)
    requires |items| == |flags| && HlcOrdered(items)
    ensures HlcOrdered(Emit(items, flags))
  {
    if items != [] {
      var n := |items| - 1;
      EmitOrdered(items[..n], flags[..n]);
      var out := Emit(items[..n], flags[..n]);
      forall i | 0 <= i < |out| && flags[n] ensures !HlcLt(items[n].hlc, out[i].hlc) {
        EmitMember(items[..n], flags[..n], out[i]);
      }
    }
  }

  // ----- the two passes -----

  /** Second-pass candidates: untied and above the watermark. */
  function Backlog(tied: seq<bool>, above: seq<bool>): (f: seq<bool>)
    requires |tied| == |above|
    ensures |f| == |tied|
  {
    seq(|tied|, i requires 0 <= i < |tied| => !tied[i] && above[i])
  }

  /** The budget the first pass leaves to the second. */
  function Leftover(tied: seq<bool>, maxBeacons: nat): nat {
    maxBeacons - Least(maxBeacons, Count(tied))
  }

  predicate Chosen(tied: seq<bool>, above: seq<bool>, maxBeacons: nat, i: nat)
    requires |tied| == |above| && i < |tied|
  {
    || (tied[i] && Count(tied[..i]) < maxBeacons)
    || (Backlog(tied, above)[i] && Count(Backlog(tied, above)[..i]) < Leftover(tied, maxBeacons))
  }

  function ChosenFlags(tied: seq<bool>, above: seq<bool>, maxBeacons: nat): (f: seq<bool>)
    requires |tied| == |above|
    ensures |f| == |tied|
  {
    seq(|tied|, i requires 0 <= i < |tied| => Chosen(tied, above, maxBeacons, i))
  }

  /** The beacons a responder serves above a watermark. */
  function Served(decode: BeaconDecoder, admitted: seq<CommitteeEvent>, watermark: Option<Hlc>,
                  maxBeacons: nat): seq<CommitteeEvent> {
    Emit(admitted, ChosenFlags(TiedFlags(decode, admitted), AboveFlags(watermark, admitted), maxBeacons))
  }

  method FirstPass(tied: seq<bool>, maxBeacons: nat) returns (selected: set<nat>)
    ensures forall i :: i in selected <==> 0 <= i < |tied| && Within(tied, maxBeacons)[i]
    ensures |selected| == Least(maxBeacons, Count(tied))
  {
    hide Count, Within;
    selected := {};
    CountNothing(tied);
    for i := 0 to |tied|
      invariant forall k :: k in selected <==> 0 <= k < i && Within(tied, maxBeacons)[k]
      invariant |selected| == Least(maxBeacons, Count(tied[..i]))
    {
      WithinStep(tied, maxBeacons, i);
      if |selected| >= maxBeacons {
        CountBeyond(tied, i, maxBeacons);
        return;
      }
      if tied[i] {
        selected := selected + {i};
      }
    }
    assert tied[..|tied|] == tied;
  }

  lemma CountNothing(flags: seq<bool>)
    ensures Count(flags[..0]) == 0
  {
  }

  /** Once the budget is spent no later flag is within it. */
  lemma CountBeyond(flags: seq<bool>, i: nat, budget: nat)
    requires i <= |flags| && Count(flags[..i]) >= budget
    ensures forall k :: i <= k < |flags| ==> Count(flags[..k]) >= budget
    ensures Count(flags) >= budget
  {
    forall k | i <= k <= |flags| ensures Count(flags[..k]) >= budget {
      CountPrefix(flags[..k], i);
      assert flags[..k][..i] == flags[..i];
    }
    assert flags[..|flags|] == flags;
  }

  /** The set flags among the first `budget` set ones. */
  function Within(flags: seq<bool>, budget: nat): (f: seq<bool>)
    ensures |f| == |flags|
  {
    seq(|flags|, i requires 0 <= i < |flags| => flags[i] && Count(flags[..i]) < budget)
  }

  lemma WithinStep(flags: seq<bool>, budget: nat, i: nat)
    requires i < |flags|
    ensures Within(flags, budget)[i] <==> flags[i] && Count(flags[..i]) < budget
    ensures Count(flags[..i]) >= budget ==> forall k :: i <= k < |flags| ==> !Within(flags, budget)[k]
    ensures Least(budget, Count(flags[..i + 1]))
         == Least(budget, Count(flags[..i])) + if Within(flags, budget)[i] then 1 else 0
  {
    CountStep(flags, i);
    if Count(flags[..i]) >= budget {
      CountBeyond(flags, i, budget);
    }
  }

  lemma ChosenIs(tied: seq<bool>, above: seq<bool>, maxBeacons: nat, i: nat)
    requires |tied| == |above| && i < |tied|
    ensures Chosen(tied, above, maxBeacons, i)
       <==> Within(tied, maxBeacons)[i] || Within(Backlog(tied, above), Leftover(tied, maxBeacons))[i]
    ensures Within(tied, maxBeacons)[i] ==> tied[i]
    ensures Backlog(tied, above)[i] <==> !tied[i] && above[i]
    ensures tied[i] && Count(tied) < maxBeacons ==> Within(tied, maxBeacons)[i]
  {
    AllTiedTaken(tied, i, maxBeacons);
  }

  /** One index of the second pass, in terms of the budget it has used. */
  lemma TakeStep(tied: seq<bool>, above: seq<bool>, maxBeacons: nat, i: nat)
    requires |tied| == |above| && i < |tied|
    ensures var left, backlog := Leftover(tied, maxBeacons), Backlog(tied, above);
            var take, used := Within(backlog, left), Least(left, Count(backlog[..i]));
            && (used >= left ==> forall k :: i <= k < |tied| ==> !take[k])
            && (used < left ==> (take[i] <==> above[i] && !Within(tied, maxBeacons)[i]))
            && (take[i] ==> !Within(tied, maxBeacons)[i])
            && Least(left, Count(backlog[..i + 1])) == used + if take[i] then 1 else 0
  {
    WithinStep(Backlog(tied, above), Leftover(tied, maxBeacons), i);
    ChosenIs(tied, above, maxBeacons, i);
    hide Within, Backlog, Chosen, Count;
  }

  lemma ChosenAre(tied: seq<bool>, above: seq<bool>, maxBeacons: nat)
    requires |tied| == |above|
    ensures var take := Within(Backlog(tied, above), Leftover(tied, maxBeacons));
            forall i :: 0 <= i < |tied| ==>
              (Chosen(tied, above, maxBeacons, i) <==> Within(tied, maxBeacons)[i] || take[i])
  {
    hide *;
    forall i | 0 <= i < |tied|
      ensures Chosen(tied, above, maxBeacons, i)
         <==> Within(tied, maxBeacons)[i] || Within(Backlog(tied, above), Leftover(tied, maxBeacons))[i]
    {
      ChosenIs(tied, above, maxBeacons, i);
    }
  }

  method SecondPass(first: set<nat>, tied: seq<bool>, above: seq<bool>, maxBeacons: nat) returns (selected: set<nat>)
    requires |tied| == |above|
    requires forall i :: i in first <==> 0 <= i < |tied| && Within(tied, maxBeacons)[i]
    requires |first| == Least(maxBeacons, Count(tied))
    ensures forall i :: i in selected <==> 0 <= i < |tied| && Chosen(tied, above, maxBeacons, i)
  {
    ghost var left := Leftover(tied, maxBeacons);
    ghost var backlog := Backlog(tied, above);
    ghost var take := Within(backlog, left);
    selected := first;
    assert |first| + left == maxBeacons;
    CountNothing(backlog);
    assert Least(left, 0) == 0;
    hide *;
    for i := 0 to |tied|
      invariant forall k :: k in selected <==> k in first || (0 <= k < i && take[k])
      invariant |selected| == |first| + Least(left, Count(backlog[..i]))
    {
      TakeStep(tied, above, maxBeacons, i);
      if |selected| >= maxBeacons {
        break;
      }
      if i in selected {
        continue;
      }
      if above[i] {
        selected := selected + {i};
      }
    }
    ChosenAre(tied, above, maxBeacons);
  }

  /** While budget is left after the first pass, it took every tied index. */
  lemma AllTiedTaken(tied: seq<bool>, i: nat, maxBeacons: nat)
    requires i < |tied|
    ensures Count(tied) < maxBeacons ==> Count(tied[..i]) < maxBeacons
  {
    CountPrefix(tied, i);
  }

  /** The beacon part of `select_catchup`. */
  method SelectBeacons(decode: BeaconDecoder, log: seq<CommitteeEvent>, watermark: Option<Hlc>, maxBeacons: nat,
                       nowMs: u64)
    returns (beacons: seq<CommitteeEvent>)
    ensures beacons == Served(decode, Admitted(log, nowMs), watermark, maxBeacons)
  {
    var admitted := AdmitBeacons(log, nowMs);
    var tiedHashes := TiedHashes(decode, admitted);
    var tied := seq(|admitted|, i requires 0 <= i < |admitted| =>
      decode(admitted[i].payload).Some? && decode(admitted[i].payload).value.0 in tiedHashes);
    assert tied == TiedFlags(decode, admitted);
    var above := AboveFlags(watermark, admitted);
    var first := FirstPass(tied, maxBeacons);
    var selected := SecondPass(first, tied, above, maxBeacons);
    ghost var flags := ChosenFlags(tied, above, maxBeacons);
    hide Chosen, TiedFlags, AboveFlags;
    beacons := [];
    for i := 0 to |admitted|
      invariant beacons == Emit(admitted[..i], flags[..i])
    {
      EmitStep(admitted, flags, i);
      if i in selected {
        beacons := beacons + [admitted[i]];
      }
    }
    assert admitted[..|admitted|] == admitted && flags[..|admitted|] == flags;
  }

  // ----- what is served -----

  lemma {:induction false} ChosenCount(tied: seq<bool>, above: seq<bool>, maxBeacons: nat, i: nat)
    requires |tied| == |above| && i <= |tied|
    ensures Count(ChosenFlags(tied, above, maxBeacons)[..i])
         == Least(maxBeacons, Count(tied[..i])) + Least(Leftover(tied, maxBeacons), Count(Backlog(tied, above)[..i]))
  {
    if i > 0 {
      ChosenCount(tied, above, maxBeacons, i - 1);
      CountStep(ChosenFlags(tied, above, maxBeacons), i - 1);
      CountStep(tied, i - 1);
      CountStep(Backlog(tied, above), i - 1);
    }
  }

  /** Exactly as many beacons are served as the cap allows: all tied and all
      backlog beacons, or the cap. Hence never more than the cap, and nothing is
      held back while there is budget. */
  lemma ServedCount(decode: BeaconDecoder, admitted: seq<CommitteeEvent>, watermark: Option<Hlc>, maxBeacons: nat)
    ensures var tied := TiedFlags(decode, admitted);
            |Served(decode, admitted, watermark, maxBeacons)|
            == Least(maxBeacons, Count(tied) + Count(Backlog(tied, AboveFlags(watermark, admitted))))
  {
    hide *;
    var tied, above := TiedFlags(decode, admitted), AboveFlags(watermark, admitted);
    ServedIs(decode, admitted, watermark, maxBeacons);
    EmitCount(admitted, ChosenFlags(tied, above, maxBeacons));
    var n, c := |tied|, |Served(decode, admitted, watermark, maxBeacons)|;
    ChosenCount(tied, above, maxBeacons, n);
    CountWhole(ChosenFlags(tied, above, maxBeacons), n);
    CountWhole(tied, n);
    CountWhole(Backlog(tied, above), n);
    BudgetSplits(maxBeacons, tied, Count(Backlog(tied, above)), c);
  }

  /** The two passes share one budget. */
  lemma BudgetSplits(maxBeacons: nat, tied: seq<bool>, b: nat, c: nat)
    requires c == Least(maxBeacons, Count(tied)) + Least(Leftover(tied, maxBeacons), b)
    ensures c == Least(maxBeacons, Count(tied) + b)
  {
    hide Count;
  }

  lemma CountWhole(flags: seq<bool>, n: nat)
    requires n == |flags|
    ensures Count(flags[..n]) == Count(flags)
  {
    assert flags[..n] == flags;
  }

  /** A set flag is within any budget that covers them all. */
  lemma FlagFits(flags: seq<bool>, i: nat, budget: nat)
    requires i < |flags| && flags[i] && Count(flags) <= budget
    ensures Count(flags[..i]) < budget
  {
    CountStep(flags, i);
    CountPrefix(flags, i + 1);
  }

  lemma ServedMember(decode: BeaconDecoder, admitted: seq<CommitteeEvent>, watermark: Option<Hlc>, maxBeacons: nat,
                     e: CommitteeEvent)
    requires e in Served(decode, admitted, watermark, maxBeacons)
    ensures e in admitted && (Tied(decode, admitted, e) || Above(watermark, e))
  {
    EmitMember(admitted, ChosenFlags(TiedFlags(decode, admitted), AboveFlags(watermark, admitted), maxBeacons), e);
  }

  lemma TiedServed(decode: BeaconDecoder, admitted: seq<CommitteeEvent>, watermark: Option<Hlc>, maxBeacons: nat,
                   e: CommitteeEvent)
    requires e in admitted && Tied(decode, admitted, e) && Count(TiedFlags(decode, admitted)) <= maxBeacons
    ensures e in Served(decode, admitted, watermark, maxBeacons)
  {
    var tied, above := TiedFlags(decode, admitted), AboveFlags(watermark, admitted);
    var flags := ChosenFlags(tied, above, maxBeacons);
    var i :| 0 <= i < |admitted| && admitted[i] == e;
    FlagFits(tied, i, maxBeacons);
    assert flags[i];
    hide *;
    EmitMember(admitted, flags, e);
    assert e in Emit(admitted, flags);
    ServedIs(decode, admitted, watermark, maxBeacons);
  }

  lemma ServedIs(decode: BeaconDecoder, admitted: seq<CommitteeEvent>, watermark: Option<Hlc>, maxBeacons: nat)
    ensures Served(decode, admitted, watermark, maxBeacons)
         == Emit(admitted, ChosenFlags(TiedFlags(decode, admitted), AboveFlags(watermark, admitted), maxBeacons))
  {
  }

  lemma BacklogServed(decode: BeaconDecoder, admitted: seq<CommitteeEvent>, watermark: Option<Hlc>, maxBeacons: nat,
                      e: CommitteeEvent)
    requires e in admitted && Above(watermark, e) && !Tied(decode, admitted, e)
    requires |Served(decode, admitted, watermark, maxBeacons)| < maxBeacons
    ensures e in Served(decode, admitted, watermark, maxBeacons)
  {
    var tied, above := TiedFlags(decode, admitted), AboveFlags(watermark, admitted);
    var flags := ChosenFlags(tied, above, maxBeacons);
    var i :| 0 <= i < |admitted| && admitted[i] == e;
    ServedCount(decode, admitted, watermark, maxBeacons);
    FlagFits(Backlog(tied, above), i, Leftover(tied, maxBeacons));
    assert flags[i];
    hide *;
    EmitMember(admitted, flags, e);
    ServedIs(decode, admitted, watermark, maxBeacons);
  }

  /** Every served beacon is admitted and tied or above the watermark, in clock
      order; when the tied beacons fit the cap every tied group is served whole;
      and below the cap every beacon above the watermark is served. */
  lemma ServedBeacons(decode: BeaconDecoder, admitted: seq<CommitteeEvent>, watermark: Option<Hlc>, maxBeacons: nat)
    requires HlcOrdered(admitted)
    ensures var served := Served(decode, admitted, watermark, maxBeacons);
            && HlcOrdered(served) && |served| <= maxBeacons
            && (forall e :: e in served ==> e in admitted && (Tied(decode, admitted, e) || Above(watermark, e)))
            && (Count(TiedFlags(decode, admitted)) <= maxBeacons ==>
                  forall e :: e in admitted && Tied(decode, admitted, e) ==> e in served)
            && (|served| < maxBeacons ==> forall e :: e in admitted && Above(watermark, e) ==> e in served)
  {
    var tied, above := TiedFlags(decode, admitted), AboveFlags(watermark, admitted);
    var served := Served(decode, admitted, watermark, maxBeacons);
    EmitOrdered(admitted, ChosenFlags(tied, above, maxBeacons));
    ServedCount(decode, admitted, watermark, maxBeacons);
    hide Served, Tied, Above, TiedFlags, AboveFlags, Backlog, ChosenFlags, Emit, Count, HlcOrdered, HlcLt;
    forall e | e in served ensures e in admitted && (Tied(decode, admitted, e) || Above(watermark, e)) {
      ServedMember(decode, admitted, watermark, maxBeacons, e);
    }
    forall e | e in admitted && Tied(decode, admitted, e) && Count(tied) <= maxBeacons ensures e in served {
      TiedServed(decode, admitted, watermark, maxBeacons, e);
    }
    forall e | e in admitted && Above(watermark, e) && |served| < maxBeacons ensures e in served {
      if Tied(decode, admitted, e) {
        TiedServed(decode, admitted, watermark, maxBeacons, e);
      } else {
        BacklogServed(decode, admitted, watermark, maxBeacons, e);
      }
    }
  }

  // ----- paging -----

  predicate NoTies(decode: BeaconDecoder, admitted: seq<CommitteeEvent>) {
    forall e :: e in admitted ==> !Tied(decode, admitted, e)
  }

  /** The flags of positions `k..m`. */
  function Window(n: nat, k: nat, m: nat): seq<bool> {
    seq(n, i => k <= i < m)
  }

  lemma {:induction false} CountWindow(n: nat, k: nat, m: nat, i: nat)
    requires k <= m <= n && i <= n
    ensures Count(Window(n, k, m)[..i]) == if i <= k then 0 else Least(i, m) - k
  {
    if i > 0 {
      CountWindow(n, k, m, i - 1);
      CountStep(Window(n, k, m), i - 1);
    }
  }

  lemma {:induction false} CountNone(flags: seq<bool>)
    requires forall i :: 0 <= i < |flags| ==> !flags[i]
    ensures Count(flags) == 0
  {
    if flags != [] {
      CountNone(flags[..|flags| - 1]);
    }
  }

  lemma {:induction false} EmitWindow(items: seq<CommitteeEvent>, k: nat, m: nat, i: nat)
    requires k <= m <= |items| && i <= |items|
    ensures Emit(items[..i], Window(|items|, k, m)[..i]) == if i <= k then [] else items[k..Least(i, m)]
  {
    if i > 0 {
      var flags := Window(|items|, k, m);
      EmitWindow(items, k, m, i - 1);
      EmitStep(items, flags, i - 1);
      assert flags[i - 1] <==> k <= i - 1 < m;
      hide Emit, Window;
      if k < i <= m {
        OneMore(items, k, i);
      }
    }
  }

  lemma OneMore<T>(s: seq<T>, k: nat, i: nat)
    requires k < i <= |s|
    ensures s[k..i] == s[k..i - 1] + [s[i - 1]]
  {
  }

  /** Without ties and with distinct clocks, a requester that holds exactly the
      first `k` beacons is served exactly the next page. */
  lemma ServesNextPage(decode: BeaconDecoder, admitted: seq<CommitteeEvent>, k: nat, maxBeacons: nat)
    requires HlcOrdered(admitted) && HlcDistinct(admitted) && NoTies(decode, admitted) && k <= |admitted|
    ensures Served(decode, admitted, if k == 0 then None else Some(admitted[k - 1].hlc), maxBeacons)
         == admitted[k..Least(k + maxBeacons, |admitted|)]
  {
    var n := |admitted|;
    var watermark := if k == 0 then None else Some(admitted[k - 1].hlc);
    var tied, above := TiedFlags(decode, admitted), AboveFlags(watermark, admitted);
    var m := Least(k + maxBeacons, n);
    CountNone(tied);
    forall i | 0 <= i < n ensures Backlog(tied, above)[i] == Window(n, k, n)[i] {
      if k > 0 {
        HlcTotal(admitted[k - 1].hlc, admitted[i].hlc);
      }
    }
    hide TiedFlags, AboveFlags, HlcOrdered, HlcLt, NoTies;
    assert Backlog(tied, above) == Window(n, k, n);
    var flags := ChosenFlags(tied, above, maxBeacons);
    forall i | 0 <= i < n ensures flags[i] == Window(n, k, m)[i] {
      CountWindow(n, k, n, i);
    }
    assert flags == Window(n, k, m);
    EmitWindow(admitted, k, m, n);
    assert admitted[..n] == admitted && flags[..n] == flags;
  }

  /** Adopting an event inserts it in clock order. */
  function InsertEvent(log: seq<CommitteeEvent>, e: CommitteeEvent): seq<CommitteeEvent> {
    if log == [] || HlcLt(e.hlc, log[0].hlc) then [e] + log else [log[0]] + InsertEvent(log[1..], e)
  }

  /** An event the log already holds is left alone. */
  function Adopt(log: seq<CommitteeEvent>, e: CommitteeEvent): seq<CommitteeEvent> {
    if e in log then log else InsertEvent(log, e)
  }

  function AdoptAll(log: seq<CommitteeEvent>, served: seq<CommitteeEvent>): seq<CommitteeEvent>
    decreases |served|
  {
    if served == [] then log else AdoptAll(Adopt(log, served[0]), served[1..])
  }

  /** The requester's log after `rounds` exchanges with one responder, each asking
      above its current watermark. */
  function Rounds(decode: BeaconDecoder, responder: seq<CommitteeEvent>, requester: seq<CommitteeEvent>,
                  nowMs: u64, maxBeacons: nat, rounds: nat): seq<CommitteeEvent> {
    if rounds == 0 then requester
    else
      var log := Rounds(decode, responder, requester, nowMs, maxBeacons, rounds - 1);
      AdoptAll(log, Served(decode, Admitted(responder, nowMs), BeaconWatermarkOf(log, nowMs), maxBeacons))
  }

  lemma {:induction false} InsertMember(log: seq<CommitteeEvent>, e: CommitteeEvent, x: CommitteeEvent)
    ensures x in InsertEvent(log, e) <==> x in log || x == e
  {
    if log != [] {
      InsertMember(log[1..], e, x);
      assert log == [log[0]] + log[1..];
    }
  }

  lemma {:induction false} InsertOrdered(log: seq<CommitteeEvent>, e: CommitteeEvent)
    requires HlcOrdered(log)
    ensures HlcOrdered(InsertEvent(log, e))
  {
    if log == [] {
    } else if HlcLt(e.hlc, log[0].hlc) {
      forall j | 0 <= j < |log| ensures !HlcLt(log[j].hlc, e.hlc) {
        HlcTotal(log[0].hlc, log[0].hlc);
        HlcTrans(e.hlc, log[0].hlc, log[j].hlc);
        HlcTotal(e.hlc, log[j].hlc);
      }
    } else {
      InsertOrdered(log[1..], e);
      var rest := InsertEvent(log[1..], e);
      forall j | 0 <= j < |rest| ensures !HlcLt(rest[j].hlc, log[0].hlc) {
        InsertMember(log[1..], e, rest[j]);
        if rest[j] != e {
          var i :| 0 <= i < |log[1..]| && log[1..][i] == rest[j];
          assert log[i + 1] == rest[j];
        }
      }
    }
  }

  /** A newly adopted beacon above every admitted one becomes the last. */
  lemma {:induction false} AdmittedInsert(log: seq<CommitteeEvent>, e: CommitteeEvent, nowMs: u64)
    requires HlcOrdered(log) && Admissible(e, nowMs)
    requires forall x :: x in Admitted(log, nowMs) ==> HlcLt(x.hlc, e.hlc)
    ensures Admitted(InsertEvent(log, e), nowMs) == Admitted(log, nowMs) + [e]
  {
    hide Admissible, HlcLt;
    if log == [] {
      assert [e][1..] == [];
    } else if HlcLt(e.hlc, log[0].hlc) {
      if Admitted(log, nowMs) != [] {
        var x := Admitted(log, nowMs)[0];
        AdmittedMember(log, nowMs, x);
        var i :| 0 <= i < |log| && log[i] == x;
        HlcTotal(log[0].hlc, log[0].hlc);
        HlcTrans(e.hlc, log[0].hlc, x.hlc);
        HlcTotal(x.hlc, e.hlc);
        assert false;
      }
      assert ([e] + log)[1..] == log;
    } else {
      AdmittedInsert(log[1..], e, nowMs);
      assert ([log[0]] + InsertEvent(log[1..], e))[1..] == InsertEvent(log[1..], e);
    }
  }

  lemma {:induction false} AdmittedAdoptAll(log: seq<CommitteeEvent>, served: seq<CommitteeEvent>, nowMs: u64)
    requires HlcOrdered(log) && HlcOrdered(Admitted(log, nowMs) + served) && HlcDistinct(Admitted(log, nowMs) + served)
    requires forall e :: e in served ==> Admissible(e, nowMs)
    ensures Admitted(AdoptAll(log, served), nowMs) == Admitted(log, nowMs) + served
    ensures HlcOrdered(AdoptAll(log, served))
    decreases |served|
  {
    if served != [] {
      var e, held := served[0], Admitted(log, nowMs);
      var all := held + served;
      assert all[|held|] == e;
      forall x | x in held ensures HlcLt(x.hlc, e.hlc) {
        var i :| 0 <= i < |held| && held[i] == x;
        assert all[i] == x;
        HlcTotal(x.hlc, e.hlc);
      }
      AdmittedMember(log, nowMs, e);
      HlcTotal(e.hlc, e.hlc);
      assert e !in log;
      hide Admissible, HlcLt;
      AdmittedInsert(log, e, nowMs);
      InsertOrdered(log, e);
      assert held + [e] + served[1..] == all;
      AdmittedAdoptAll(Adopt(log, e), served[1..], nowMs);
    }
  }

  lemma PrefixOrdered(s: seq<CommitteeEvent>, m: nat)
    requires m <= |s| && HlcOrdered(s) && HlcDistinct(s)
    ensures HlcOrdered(s[..m]) && HlcDistinct(s[..m])
  {
  }

  /** One round takes a requester from the first `k` beacons to the next page. */
  lemma PagingStep(decode: BeaconDecoder, responder: seq<CommitteeEvent>, log: seq<CommitteeEvent>,
                   nowMs: u64, maxBeacons: nat, k: nat)
    requires HlcOrdered(responder) && HlcOrdered(log) && k <= |Admitted(responder, nowMs)|
    requires HlcDistinct(Admitted(responder, nowMs)) && NoTies(decode, Admitted(responder, nowMs))
    requires Admitted(log, nowMs) == Admitted(responder, nowMs)[..k]
    ensures var all := Admitted(responder, nowMs);
            var next := AdoptAll(log, Served(decode, all, BeaconWatermarkOf(log, nowMs), maxBeacons));
            HlcOrdered(next) && Admitted(next, nowMs) == all[..Least(k + maxBeacons, |all|)]
  {
    var all := Admitted(responder, nowMs);
    var m := Least(k + maxBeacons, |all|);
    AdmittedOrdered(responder, nowMs);
    ServesNextPage(decode, all, k, maxBeacons);
    var served := all[k..m];
    assert BeaconWatermarkOf(log, nowMs) == if k == 0 then None else Some(all[k - 1].hlc);
    PrefixOrdered(all, m);
    hide Admitted, Admissible, HlcLt, BeaconWatermarkOf, Served, NoTies, HlcOrdered, HlcDistinct;
    assert all[..k] + served == all[..m];
    forall e | e in served ensures Admissible(e, nowMs) {
      AdmittedMember(responder, nowMs, e);
    }
    AdmittedAdoptAll(log, served, nowMs);
  }

  /** After `rounds` rounds the requester holds exactly the first
      `rounds * maxBeacons` of the responder's admitted beacons, or all of them. */
  lemma {:induction false} PagingProgress(decode: BeaconDecoder, responder: seq<CommitteeEvent>,
                                          requester: seq<CommitteeEvent>,
                                          nowMs: u64, maxBeacons: nat, rounds: nat)
    requires HlcOrdered(responder) && HlcOrdered(requester) && Admitted(requester, nowMs) == []
    requires HlcDistinct(Admitted(responder, nowMs)) && NoTies(decode, Admitted(responder, nowMs))
    ensures var all := Admitted(responder, nowMs);
            var log := Rounds(decode, responder, requester, nowMs, maxBeacons, rounds);
            && HlcOrdered(log)
            && Admitted(log, nowMs) == all[..Least(rounds * maxBeacons, |all|)]
  {
    var all := Admitted(responder, nowMs);
    hide Admitted, HlcOrdered, HlcDistinct, NoTies, BeaconWatermarkOf, Served, AdoptAll;
    if rounds == 0 {
      assert all[..0] == [];
    } else {
      PagingProgress(decode, responder, requester, nowMs, maxBeacons, rounds - 1);
      var log := Rounds(decode, responder, requester, nowMs, maxBeacons, rounds - 1);
      var k := Least((rounds - 1) * maxBeacons, |all|);
      PagingStep(decode, responder, log, nowMs, maxBeacons, k);
      assert (rounds - 1) * maxBeacons + maxBeacons == rounds * maxBeacons;
    }
  }

  lemma PagingEnd(decode: BeaconDecoder, responder: seq<CommitteeEvent>, log: seq<CommitteeEvent>, nowMs: u64,
                  maxBeacons: nat, k: nat)
    requires HlcOrdered(responder)
    requires HlcDistinct(Admitted(responder, nowMs)) && NoTies(decode, Admitted(responder, nowMs))
    requires Admitted(log, nowMs) == Admitted(responder, nowMs)[..Least(k, |Admitted(responder, nowMs)|)]
    ensures var all := Admitted(responder, nowMs);
            && (Admitted(log, nowMs) == all <==> k >= |all|)
            && (k >= |all| ==> Served(decode, all, BeaconWatermarkOf(log, nowMs), maxBeacons) == [])
  {
    var all := Admitted(responder, nowMs);
    hide Admitted, HlcOrdered, HlcDistinct, NoTies, Served;
    if k >= |all| {
      AdmittedOrdered(responder, nowMs);
      ServesNextPage(decode, all, |all|, maxBeacons);
      assert all[..|all|] == all;
    } else {
      assert |all[..k]| < |all|;
    }
  }

  /** Paging completes in the number of pages, and not before; then the responder
      serves no more beacons. */
  lemma PagingCompletes(decode: BeaconDecoder, responder: seq<CommitteeEvent>, requester: seq<CommitteeEvent>,
                        nowMs: u64, maxBeacons: nat, rounds: nat)
    requires HlcOrdered(responder) && HlcOrdered(requester) && Admitted(requester, nowMs) == []
    requires HlcDistinct(Admitted(responder, nowMs)) && NoTies(decode, Admitted(responder, nowMs))
    ensures var all := Admitted(responder, nowMs);
            var log := Rounds(decode, responder, requester, nowMs, maxBeacons, rounds);
            && (Admitted(log, nowMs) == all <==> rounds * maxBeacons >= |all|)
            && (rounds * maxBeacons >= |all| ==> Served(decode, all, BeaconWatermarkOf(log, nowMs), maxBeacons) == [])
  {
    PagingProgress(decode, responder, requester, nowMs, maxBeacons, rounds);
    hide *;
    var log := Rounds(decode, responder, requester, nowMs, maxBeacons, rounds);
    PagingEnd(decode, responder, log, nowMs, maxBeacons, rounds * maxBeacons);
  }
}
