/** What every run of the backfill driver does: how long it backs off, what wakes it
    and what that leads to, which receivers it keeps, what it stamps and when it stops
    (`src-tauri/src/channel_backfill.rs`). */
module BackfillLaws {
  import opened Prelude
  import opened BackfillDriver

  /** The driver's state after a run from the start. */
  function After(cfg: Config, epochRx: bool, presenceRx: bool, script: seq<Event>): State {
    Run(cfg, Initial(cfg, epochRx, presenceRx), script)
  }

  /** Event `i` of a run from `s` happens: the driver can take it where it is. */
  predicate Happens(cfg: Config, s: State, script: seq<Event>, i: nat)
    requires i < |script|
  {
    Enabled(cfg, Run(cfg, s, script[..i]), script[i])
  }

  lemma PrefixOf(cfg: Config, s: State, script: seq<Event>)
    requires script != []
    ensures var n := |script| - 1;
            && Run(cfg, s, script) == Step(cfg, Run(cfg, s, script[..n]), script[n])
            && (forall i :: 0 <= i < n ==> Happens(cfg, s, script, i) == Happens(cfg, s, script[..n], i))
            && (forall i :: 0 <= i < n ==> script[..n][i] == script[i] && script[..n][..i] == script[..i])
  {
    var n := |script| - 1;
    hide Enabled, Step;
    assert forall i :: 0 <= i < n ==> script[..n][i] == script[i] && script[..n][..i] == script[..i];
  }

  // ----- backoff -----

  /** What can cut a backoff short: a bump or kick, a dropped sender, a notification
      of the shutdown watch. */
  predicate Wakes(e: Event) {
    e.Bump? || e.SenderDropped? || e.ShutdownChanged?
  }

  /** Either still backing off with nothing sent, or past `until` with nothing sent
      before it. */
  predicate BackedOff(sent: seq<Sent>, until: nat, s: State) {
    || (s.phase == BackingOff(until) && s.sent == sent)
    || (s.clock >= until && sent <= s.sent && forall i :: |sent| <= i < |s.sent| ==> s.sent[i].at >= until)
  }

  lemma BackoffStep(cfg: Config, sent: seq<Sent>, until: nat, s: State, e: Event)
    requires BackedOff(sent, until, s) && Enabled(cfg, s, e) && (Wakes(e) ==> e.now >= until)
    ensures BackedOff(sent, until, Apply(cfg, s, e))
  {
    hide WakeAt, ResyncArg, FloorOn, Cooled, SatAdd, SatSub, Wired;
  }

  lemma {:induction false} BackoffRun(cfg: Config, sent: seq<Sent>, until: nat, s: State, rest: seq<Event>)
    requires BackedOff(sent, until, s) && forall e :: e in rest && Wakes(e) ==> e.now >= until
    ensures BackedOff(sent, until, Run(cfg, s, rest))
  {
    hide BackedOff, Enabled, Apply;
    if rest != [] {
      var n := |rest| - 1;
      PrefixOf(cfg, s, rest);
      assert forall e :: e in rest[..n] ==> e in rest;
      BackoffRun(cfg, sent, until, s, rest[..n]);
      var before := Run(cfg, s, rest[..n]);
      assert rest[n] in rest;
      if Enabled(cfg, before, rest[n]) {
        BackoffStep(cfg, sent, until, before, rest[n]);
      }
    }
  }

  /** When the latch asks to wait until `target`, the driver parks for exactly that
      long, or for 250 ms if that is longer; and unless something wakes it before
      then, it sends nothing before then. */
  lemma BackoffIsKept(cfg: Config, s: State, now: u64, target: u64, rest: seq<Event>)
    requires Enabled(cfg, s, Look(now, false, WaitUntil(target)))
    requires var until := if target >= now + 250 then target else now + 250;
             forall e :: e in rest && Wakes(e) ==> e.now >= until
    ensures var until := if target >= now + 250 then target else now + 250;
            var parked := Step(cfg, s, Look(now, false, WaitUntil(target)));
            var end := Run(cfg, parked, rest);
            && parked.phase == BackingOff(until) && parked.sent == s.sent
            && s.sent <= end.sent
            && forall i :: |s.sent| <= i < |end.sent| ==> end.sent[i].at >= until
  {
    var until := if target >= now + 250 then target else now + 250;
    var parked := Step(cfg, s, Look(now, false, WaitUntil(target)));
    assert parked.phase == BackingOff(until);
    BackoffRun(cfg, s.sent, until, parked, rest);
  }

  // ----- re-arms -----

  /** The next request, if there is one yet, is the re-arm's. */
  predicate NextIs(sent: seq<Sent>, last: Option<u64>, cause: Cause, s: State) {
    || (s.sent == sent && s.lastRequestAt == last
        && (s.phase.Stopped? || (s.phase.Top? && s.cause == cause)
            || (cause == ByEdge && (s.phase.Cooling? || s.phase.Reading?))))
    || (|s.sent| > |sent| && sent <= s.sent && s.sent[|sent|].previous == last && s.sent[|sent|].cause == cause)
  }

  lemma NextStep(cfg: Config, sent: seq<Sent>, last: Option<u64>, cause: Cause, s: State, e: Event)
    requires NextIs(sent, last, cause, s) && Enabled(cfg, s, e) && cause != ByLatch
    ensures NextIs(sent, last, cause, Apply(cfg, s, e))
  {
    hide WakeAt, ResyncArg, FloorOn, Cooled, SatAdd, SatSub, Wired;
  }

  lemma {:induction false} NextRun(cfg: Config, sent: seq<Sent>, last: Option<u64>, cause: Cause, s: State,
                                   rest: seq<Event>)
    requires NextIs(sent, last, cause, s) && cause != ByLatch
    ensures NextIs(sent, last, cause, Run(cfg, s, rest))
  {
    hide NextIs, Enabled, Apply;
    if rest != [] {
      var n := |rest| - 1;
      PrefixOf(cfg, s, rest);
      NextRun(cfg, sent, last, cause, s, rest[..n]);
      var before := Run(cfg, s, rest[..n]);
      if Enabled(cfg, before, rest[n]) {
        NextStep(cfg, sent, last, cause, before, rest[n]);
      }
    }
  }

  /** After a bump or a kick, whatever happens, the next request is a re-arm's. */
  lemma BumpIsNext(cfg: Config, s: State, now: u64, source: Source, rest: seq<Event>)
    requires Enabled(cfg, s, Bump(now, source))
    ensures var end := Run(cfg, Step(cfg, s, Bump(now, source)), rest);
            end.sent == s.sent
            || (|end.sent| > |s.sent| && s.sent <= end.sent
                && end.sent[|s.sent|].previous == s.lastRequestAt && end.sent[|s.sent|].cause == ByEdge)
  {
    NextRun(cfg, s.sent, s.lastRequestAt, ByEdge, Step(cfg, s, Bump(now, source)), rest);
  }

  /** After the floor fires, whatever happens, the next request is the floor's. */
  lemma FloorIsNext(cfg: Config, s: State, now: u64, rest: seq<Event>)
    requires Enabled(cfg, s, FloorTick(now))
    ensures var end := Run(cfg, Step(cfg, s, FloorTick(now)), rest);
            end.sent == s.sent
            || (|end.sent| > |s.sent| && s.sent <= end.sent
                && end.sent[|s.sent|].previous == s.lastRequestAt && end.sent[|s.sent|].cause == ByFloor)
  {
    NextRun(cfg, s.sent, s.lastRequestAt, ByFloor, Step(cfg, s, FloorTick(now)), rest);
  }

  /** A bump that finds a minute passed since the last request re-arms at once; an
      earlier one waits until exactly a minute after it, no longer. */
  lemma BumpDefersToTheMinute(cfg: Config, s: State, now: u64, source: Source)
    requires Enabled(cfg, s, Bump(now, source))
    ensures var next := Step(cfg, s, Bump(now, source));
            match s.lastRequestAt
            case None => next.phase == Reading
            case Some(last) =>
              && (last + 60_000 <= now ==> next.phase == Reading)
              && (last + 60_000 > now && last + 60_000 <= U64_MAX ==> next.phase == Cooling(last + 60_000))
  {
  }

  // ----- the history of requests -----

  /** Each request records the time of the one before it, and none is ahead of the
      clock. */
  predicate Linked(sent: seq<Sent>, last: Option<u64>, clock: u64) {
    && (sent != [] ==> sent[0].previous == None)
    && (forall i :: 0 < i < |sent| ==> sent[i].previous == Some(sent[i - 1].at))
    && last == (if sent == [] then None else Some(sent[|sent| - 1].at))
    && (forall i :: 0 <= i < |sent| ==> sent[i].at <= clock)
  }

  predicate Chained(s: State) {
    Linked(s.sent, s.lastRequestAt, s.clock)
  }

  lemma LinkedLater(sent: seq<Sent>, last: Option<u64>, clock: u64, now: u64, cause: Cause)
    requires Linked(sent, last, clock) && clock <= now
    ensures Linked(sent, last, now)
    ensures Linked(sent + [Sent(now, last, cause)], Some(now), now)
  {
    var more := sent + [Sent(now, last, cause)];
    forall i | 0 < i < |more| ensures more[i].previous == Some(more[i - 1].at) {
      assert more[i - 1] == sent[i - 1];
    }
  }

  lemma ChainStep(cfg: Config, s: State, e: Event)
    requires Chained(s) && Enabled(cfg, s, e)
    ensures Chained(Apply(cfg, s, e))
  {
    hide WakeAt, ResyncArg, FloorOn, Cooled, SatAdd, SatSub, Wired, Linked;
    LinkedLater(s.sent, s.lastRequestAt, s.clock, e.now, s.cause);
  }

  lemma {:induction false} ChainRun(cfg: Config, epochRx: bool, presenceRx: bool, script: seq<Event>)
    ensures Chained(After(cfg, epochRx, presenceRx, script))
  {
    hide Enabled, Apply;
    if script != [] {
      var n := |script| - 1;
      var start := Initial(cfg, epochRx, presenceRx);
      PrefixOf(cfg, start, script);
      ChainRun(cfg, epochRx, presenceRx, script[..n]);
      hide Chained;
      var before := Run(cfg, start, script[..n]);
      if Enabled(cfg, before, script[n]) {
        ChainStep(cfg, before, script[n]);
      }
    }
  }

  /** So in a run without early ends, a re-arm's request comes at least a minute after
      the request before it. */
  lemma RearmsAMinuteApart(cfg: Config, epochRx: bool, presenceRx: bool, script: seq<Event>, i: nat)
    requires NoEarlyEnd(cfg, Initial(cfg, epochRx, presenceRx), script, 0)
    requires 0 < i < |After(cfg, epochRx, presenceRx, script).sent|
    requires After(cfg, epochRx, presenceRx, script).sent[i].cause == ByEdge
    ensures var sent := After(cfg, epochRx, presenceRx, script).sent;
            sent[i].at >= sent[i - 1].at + 60_000 || sent[i].at == U64_MAX
  {
    RestRun(cfg, epochRx, presenceRx, script);
    ChainRun(cfg, epochRx, presenceRx, script);
    hide Run, NoEarlyEnd;
  }

  // ----- receivers -----

  predicate Drops(e: Event, source: Source) {
    e.SenderDropped? && e.source == source
  }

  lemma ReceiversStep(cfg: Config, s: State, e: Event, source: Source)
    ensures Wired(Step(cfg, s, e), source) <==> Wired(s, source) && !(Enabled(cfg, s, e) && Drops(e, source))
  {
    hide WakeAt, ResyncArg, FloorOn, Cooled, SatAdd, SatSub;
  }

  /** A receiver is there as long as its own sender has not been dropped. */
  lemma {:induction false} ReceiverKept(cfg: Config, epochRx: bool, presenceRx: bool, script: seq<Event>,
                                        source: Source)
    ensures Wired(After(cfg, epochRx, presenceRx, script), source)
       <==> Wired(Initial(cfg, epochRx, presenceRx), source)
            && forall i :: 0 <= i < |script| && Happens(cfg, Initial(cfg, epochRx, presenceRx), script, i) ==>
                 !Drops(script[i], source)
  {
    hide Enabled, Step, Wired, Drops;
    if script != [] {
      var n := |script| - 1;
      var start := Initial(cfg, epochRx, presenceRx);
      PrefixOf(cfg, start, script);
      ReceiverKept(cfg, epochRx, presenceRx, script[..n], source);
      ReceiversStep(cfg, Run(cfg, start, script[..n]), script[n], source);
    }
  }

  // ----- stopping -----

  /** The driver stops at `e`: it sees the shutdown flag, its engine is gone, or it is
      idle with no receiver left and no floor. */
  predicate StopsAt(cfg: Config, s: State, e: Event) {
    match e
    case Look(_, stop, action) =>
      || stop
      || (action.Idle? && !s.epochRx && !s.presenceRx && (cfg.intervalMs.None? || cfg.intervalMs == Some(0)))
    case ShutdownChanged(_, stop) => stop
    case PageDone(_, gone) => gone
    case _ => false
  }

  lemma StopStep(cfg: Config, s: State, e: Event)
    ensures Step(cfg, s, e).phase.Stopped? <==> s.phase.Stopped? || (Enabled(cfg, s, e) && StopsAt(cfg, s, e))
  {
    hide WakeAt, ResyncArg, Cooled, SatAdd, SatSub, Wired;
  }

  /** A run has stopped exactly when such an event happened in it. */
  lemma {:induction false} StoppedExactly(cfg: Config, epochRx: bool, presenceRx: bool, script: seq<Event>)
    ensures After(cfg, epochRx, presenceRx, script).phase.Stopped?
       <==> exists i :: 0 <= i < |script| && Happens(cfg, Initial(cfg, epochRx, presenceRx), script, i)
                          && StopsAt(cfg, After(cfg, epochRx, presenceRx, script[..i]), script[i])
  {
    hide Enabled, Step, StopsAt;
    var start := Initial(cfg, epochRx, presenceRx);
    if script != [] {
      var n := |script| - 1;
      PrefixOf(cfg, start, script);
      StoppedExactly(cfg, epochRx, presenceRx, script[..n]);
      StopStep(cfg, Run(cfg, start, script[..n]), script[n]);
    }
  }

  // ----- stamps -----

  /** The times at which the floor fires in a run. */
  function FloorFires(cfg: Config, s: State, script: seq<Event>): seq<u64> {
    if script == [] then []
    else
      var n := |script| - 1;
      FloorFires(cfg, s, script[..n])
      + if script[n].FloorTick? && Happens(cfg, s, script, n) then [script[n].now] else []
  }

  /** With a sink, every fire of the floor is stamped at its time, and nothing else is;
      without one nothing is. */
  lemma {:induction false} StampsAreFires(cfg: Config, epochRx: bool, presenceRx: bool, script: seq<Event>)
    ensures After(cfg, epochRx, presenceRx, script).stamps
         == if cfg.firstDeadline.Some? then FloorFires(cfg, Initial(cfg, epochRx, presenceRx), script) else []
  {
    hide Enabled, Apply;
    var start := Initial(cfg, epochRx, presenceRx);
    if script != [] {
      var n := |script| - 1;
      StampsAreFires(cfg, epochRx, presenceRx, script[..n]);
      StampStep(cfg, Run(cfg, start, script[..n]), script[n]);
    }
  }

  lemma StampStep(cfg: Config, s: State, e: Event)
    ensures Step(cfg, s, e).stamps
         == s.stamps + if Enabled(cfg, s, e) && e.FloorTick? && cfg.firstDeadline.Some? then [e.now] else []
  {
    hide WakeAt, ResyncArg, FloorOn, Cooled, SatAdd, SatSub, Wired, Enabled;
  }

  // ----- deadlines -----

  /** The first deadline: one interval after the last full reconcile if that is still
      ahead; what the interval has beyond the hour's floor, from now, if it has passed;
      one interval from now if there was none or its stamp is ahead of the clock. */
  lemma FirstDeadlineIs(last: Option<u64>, intervalMs: u64, nowMs: u64)
    requires nowMs + intervalMs <= U64_MAX
    ensures var d := FirstResyncDeadline(last, intervalMs, nowMs);
            if last.None? || last.value > nowMs then
              d == nowMs + intervalMs || (intervalMs == 0 && d == nowMs)
            else if last.value + intervalMs > nowMs then d == last.value + intervalMs
            else if intervalMs > 3_600_000 then d == nowMs + (intervalMs - 3_600_000)
            else d == nowMs
  {
  }

  /** Without a sink an idle driver parks for one interval from now, and for ever when
      the floor is off. */
  lemma ParksWithoutSink(cfg: Config, s: State, now: u64)
    requires cfg.firstDeadline.None? && Enabled(cfg, s, Look(now, false, Idle))
    ensures var next := Step(cfg, s, Look(now, false, Idle));
            next.phase.Stopped?
            || next.phase == Parked(if cfg.intervalMs.Some? && cfg.intervalMs.value > 0
                                    then Some(now + cfg.intervalMs.value) else None)
  {
  }
}
