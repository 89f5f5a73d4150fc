/** The channel backfill driver as a discrete-event machine over an abstract
    paging latch (`src-tauri/src/channel_backfill.rs`). */
module BackfillDriver {
  import opened Prelude

  const EPOCH_REARM_COOLDOWN_MS: u64 := 60_000
  const PERIODIC_RESYNC_FLOOR_MS: u64 := 3_600_000
  const MIN_RESYNC_WAKE_MS: u64 := 1_000
  const BACKFILL_DRIVER_MIN_WAIT_MS: u64 := 250

  // ----- the first deadline -----

  /** A full interval has passed since the last reconcile. */
  predicate PastDue(last: Option<u64>, intervalMs: u64, nowMs: u64) {
    last.Some? && last.value <= nowMs && SatAdd(last.value, intervalMs) <= nowMs
  }

  /** The deadline is never earlier than one interval after the last reconcile and
      never more than one interval ahead. It lies in the future exactly when the
      clock can advance, the interval is positive and an overdue channel's interval
      carries jitter beyond the floor. */
  function FirstResyncDeadline(last: Option<u64>, intervalMs: u64, nowMs: u64): (d: u64)
    ensures nowMs <= d <= SatAdd(nowMs, intervalMs)
    ensures last.Some? && last.value <= nowMs ==> SatAdd(last.value, intervalMs) <= d
    ensures d > nowMs <==>
      nowMs < U64_MAX && intervalMs > 0 && (PastDue(last, intervalMs, nowMs) ==> intervalMs > PERIODIC_RESYNC_FLOOR_MS)
  {
    match last
    case Some(t) =>
      var clamped := if t <= nowMs then t else nowMs;
      var due := SatAdd(clamped, intervalMs);
      if due > nowMs then due else SatAdd(nowMs, SatSub(intervalMs, PERIODIC_RESYNC_FLOOR_MS))
    case None => SatAdd(nowMs, intervalMs)
  }

  /** An overdue channel whose interval is exactly the floor, the least the jitter
      can draw, is due at once and not in the future. */
  lemma OverdueWithoutJitterIsNow(last: u64, nowMs: u64)
    requires SatAdd(last, PERIODIC_RESYNC_FLOOR_MS) <= nowMs
    ensures FirstResyncDeadline(Some(last), PERIODIC_RESYNC_FLOOR_MS, nowMs) == nowMs
  {
  }

  // ----- the machine -----

  datatype Action = Idle | WaitUntil(target: u64) | Request

  datatype Source = Epoch | Presence

  /** Why the latch is about to send: its own paging and retries, an epoch or
      presence re-arm, or the periodic floor. */
  datatype Cause = ByLatch | ByEdge | ByFloor

  /** Where the driver is suspended. A parked driver wakes for the floor at
      `wakeAt`, if the floor is armed. */
  datatype Phase =
    | Top
    | Parked(wakeAt: Option<nat>)
    | BackingOff(until: nat)
    | Cooling(target: u64)
    | Reading
    | Fetching
    | Stopped

  /** What happens next, with the clock reading the driver takes. `stop` also
      stands for the shutdown sender having been dropped. */
  datatype Event =
    | Look(now: u64, stop: bool, action: Action)
    | Bump(now: u64, source: Source)
    | SenderDropped(now: u64, source: Source)
    | FloorTick(now: u64)
    | BackoffOver(now: u64)
    | CooldownOver(now: u64)
    | ShutdownChanged(now: u64, stop: bool)
    | WatermarkRead(now: u64)
    | PageDone(now: u64, gone: bool)

  /** The persisted first deadline, if a sink is wired, and the interval. */
  datatype Config = Config(firstDeadline: Option<u64>, intervalMs: Option<u64>)

  datatype Sent = Sent(at: u64, previous: Option<u64>, cause: Cause)

  datatype State = State(
    phase: Phase,
    clock: u64,
    lastRequestAt: Option<u64>,
    resyncDeadline: Option<u64>,
    epochRx: bool,
    presenceRx: bool,
    cause: Cause,
    stamps: seq<u64>,
    sent: seq<Sent>)

  function Initial(cfg: Config, epochRx: bool, presenceRx: bool): State {
    State(Top, 0, None, cfg.firstDeadline, epochRx, presenceRx, ByLatch, [], [])
  }

  predicate FloorOn(cfg: Config) {
    cfg.intervalMs.Some? && cfg.intervalMs.value > 0
  }

  predicate Wired(s: State, source: Source) {
    if source.Epoch? then s.epochRx else s.presenceRx
  }

  /** Which events the runtime can deliver: clocks do not run backwards, sleeps
      last at least their length, and a latch that was reset sends next. */
  predicate Enabled(cfg: Config, s: State, e: Event) {
    && s.clock <= e.now
    && match s.phase
       case Top => e.Look? && (s.cause != ByLatch && !e.stop ==> e.action.Request?)
       case Parked(wakeAt) =>
         || ((e.Bump? || e.SenderDropped?) && Wired(s, e.source))
         || (e.FloorTick? && wakeAt.Some? && wakeAt.value <= e.now)
         || e.ShutdownChanged?
       case BackingOff(until) =>
         || ((e.Bump? || e.SenderDropped?) && Wired(s, e.source))
         || (e.BackoffOver? && until <= e.now)
         || e.ShutdownChanged?
       case Cooling(target) => (e.CooldownOver? && target <= e.now) || e.ShutdownChanged?
       case Reading => e.WatermarkRead?
       case Fetching => e.PageDone?
       case Stopped => false
  }

  /** The sleep the floor arm is given. */
  function ResyncArg(cfg: Config, deadline: Option<u64>, now: u64): Option<u64> {
    if cfg.firstDeadline.Some? && deadline.Some? then
      if FloorOn(cfg) then
        var left := SatSub(deadline.value, now);
        Some(if left >= MIN_RESYNC_WAKE_MS then left else MIN_RESYNC_WAKE_MS)
      else None
    else cfg.intervalMs
  }

  /** `None` and a zero interval never fire. */
  function WakeAt(arg: Option<u64>, now: u64): Option<nat> {
    if arg.Some? && arg.value > 0 then Some(now + arg.value) else None
  }

  /** A re-arm is due now, or is deferred to the cooldown boundary. */
  predicate Cooled(last: Option<u64>, now: u64) {
    last.None? || SatAdd(last.value, EPOCH_REARM_COOLDOWN_MS) <= now
  }

  function Apply(cfg: Config, s0: State, e: Event): State {
    var s := s0.(clock := e.now);
    match e
    case Look(now, stop, action) =>
      if stop then s.(phase := Stopped)
      else (
        match action
        case Idle =>
          if !s.epochRx && !s.presenceRx && !FloorOn(cfg) then s.(phase := Stopped)
          else s.(phase := Parked(WakeAt(ResyncArg(cfg, s.resyncDeadline, now), now)))
        case WaitUntil(target) =>
          var left := SatSub(target, now);
          var wait := if left >= BACKFILL_DRIVER_MIN_WAIT_MS then left else BACKFILL_DRIVER_MIN_WAIT_MS;
          s.(phase := BackingOff(now + wait))
        case Request =>
          s.(phase := Fetching, lastRequestAt := Some(now), cause := ByLatch,
             sent := s.sent + [Sent(now, s.lastRequestAt, s.cause)]))
    case Bump(now, _) =>
      if Cooled(s.lastRequestAt, now) then s.(phase := Reading)
      else s.(phase := Cooling(SatAdd(s.lastRequestAt.value, EPOCH_REARM_COOLDOWN_MS)))
    case SenderDropped(_, source) =>
      if source.Epoch? then s.(phase := Top, epochRx := false) else s.(phase := Top, presenceRx := false)
    case FloorTick(now) =>
      var s' := s.(phase := Top, cause := ByFloor);
      if cfg.firstDeadline.None? then s'
      else
        var next := if cfg.intervalMs.Some? then Some(SatAdd(now, cfg.intervalMs.value)) else s.resyncDeadline;
        s'.(stamps := s.stamps + [now], resyncDeadline := next)
    case BackoffOver(_) => s.(phase := Top)
    case CooldownOver(_) => s.(phase := Reading)
    case ShutdownChanged(_, stop) =>
      if stop then s.(phase := Stopped)
      else if s.phase.Cooling? then s.(phase := Reading)
      else s.(phase := Top)
    case WatermarkRead(_) => s.(phase := Top, cause := ByEdge)
    case PageDone(_, gone) => if gone then s.(phase := Stopped) else s.(phase := Top)
  }

  /** Events that cannot happen where the driver is suspended do not happen. */
  function Step(cfg: Config, s: State, e: Event): State {
    if Enabled(cfg, s, e) then Apply(cfg, s, e) else s
  }

  function Run(cfg: Config, s: State, script: seq<Event>): State {
    if script == [] then s else Step(cfg, Run(cfg, s, script[..|script| - 1]), script[|script| - 1])
  }

  /** The driver's own loop: its variables, one suspended point at a time. */
  method RunBackfillDriver(cfg: Config, epochRx0: bool, presenceRx0: bool, script: seq<Event>) returns (end: State)
    ensures end == Run(cfg, Initial(cfg, epochRx0, presenceRx0), script)
  {
    var start := Initial(cfg, epochRx0, presenceRx0);
    var phase: Phase := Top;
    var clock: u64 := 0;
    var lastRequestAt: Option<u64>, resyncDeadline := None, cfg.firstDeadline;
    var epochRx, presenceRx, cause := epochRx0, presenceRx0, ByLatch;
    var stamps: seq<u64>, sent: seq<Sent> := [], [];
    hide Run, SatAdd, SatSub, ResyncArg, WakeAt, FloorOn, Enabled;
    RunNothing(cfg, start);
    for i := 0 to |script|
      invariant State(phase, clock, lastRequestAt, resyncDeadline, epochRx, presenceRx, cause, stamps, sent)
             == Run(cfg, start, script[..i])
    {
      RunStep(cfg, start, script[..i], script[i]);
      assert script[..i + 1] == script[..i] + [script[i]];
      var e := script[i];
      var suspended := State(phase, clock, lastRequestAt, resyncDeadline, epochRx, presenceRx, cause, stamps, sent);
      if !Enabled(cfg, suspended, e) {
        continue;
      }
      clock := e.now;
      match e {
        case Look(now, stop, action) =>
          if stop {
            phase := Stopped;
            continue;
          }
          match action {
            case Idle =>
              if !epochRx && !presenceRx && !FloorOn(cfg) {
                phase := Stopped;
              } else {
                phase := Parked(WakeAt(ResyncArg(cfg, resyncDeadline, now), now));
              }
            case WaitUntil(target) =>
              var left := SatSub(target, now);
              if left < BACKFILL_DRIVER_MIN_WAIT_MS {
                left := BACKFILL_DRIVER_MIN_WAIT_MS;
              }
              phase := BackingOff(now + left);
            case Request =>
              sent := sent + [Sent(now, lastRequestAt, cause)];
              lastRequestAt := Some(now);
              cause := ByLatch;
              phase := Fetching;
          }
        case Bump(now, source) =>
          if Cooled(lastRequestAt, now) {
            phase := Reading;
          } else {
            phase := Cooling(SatAdd(lastRequestAt.value, EPOCH_REARM_COOLDOWN_MS));
          }
        case SenderDropped(now, source) =>
          if source.Epoch? {
            epochRx := false;
          } else {
            presenceRx := false;
          }
          phase := Top;
        case FloorTick(now) =>
          cause := ByFloor;
          if cfg.firstDeadline.Some? {
            stamps := stamps + [now];
            if cfg.intervalMs.Some? {
              resyncDeadline := Some(SatAdd(now, cfg.intervalMs.value));
            }
          }
          phase := Top;
        case BackoffOver(now) =>
          phase := Top;
        case CooldownOver(now) =>
          phase := Reading;
        case ShutdownChanged(now, stop) =>
          phase := if stop then Stopped else if phase.Cooling? then Reading else Top;
        case WatermarkRead(now) =>
          cause := ByEdge;
          phase := Top;
        case PageDone(now, gone) =>
          phase := if gone then Stopped else Top;
      }
    }
    assert script[..|script|] == script;
    return State(phase, clock, lastRequestAt, resyncDeadline, epochRx, presenceRx, cause, stamps, sent);
  }

  // ----- the persisted floor -----

  /** The stamps respect the first deadline and the interval. */
  predicate Spaced(cfg: Config, stamps: seq<u64>) {
    && (stamps != [] ==> cfg.firstDeadline.Some? && FloorOn(cfg) && cfg.firstDeadline.value <= stamps[0])
    && (forall i :: 0 < i < |stamps| && FloorOn(cfg) ==> SatAdd(stamps[i - 1], cfg.intervalMs.value) <= stamps[i])
  }

  /** The next floor fire is not before `resyncDeadline`, which is the first
      deadline or one interval after the last stamp; a parked driver wakes at it,
      or a second after it parked if that is later. */
  predicate FloorInv(cfg: Config, s: State) {
    && Spaced(cfg, s.stamps)
    && (cfg.firstDeadline.Some? ==>
          && s.resyncDeadline == Some(NextDeadline(cfg, s.stamps))
          && (s.phase.Parked? && s.phase.wakeAt.Some? ==>
                FloorOn(cfg) && NextDeadline(cfg, s.stamps) <= s.phase.wakeAt.value))
  }

  function NextDeadline(cfg: Config, stamps: seq<u64>): u64
    requires cfg.firstDeadline.Some?
  {
    if stamps == [] || cfg.intervalMs.None? then cfg.firstDeadline.value
    else SatAdd(stamps[|stamps| - 1], cfg.intervalMs.value)
  }

  lemma SpacedAppend(cfg: Config, stamps: seq<u64>, now: u64)
    requires cfg.firstDeadline.Some? && FloorOn(cfg) && Spaced(cfg, stamps) && NextDeadline(cfg, stamps) <= now
    ensures Spaced(cfg, stamps + [now])
    ensures NextDeadline(cfg, stamps + [now]) == SatAdd(now, cfg.intervalMs.value)
  {
  }

  /** The absolute wake time of a floor armed at `deadline`. */
  lemma WakeIsDeadline(cfg: Config, deadline: u64, now: u64)
    requires cfg.firstDeadline.Some?
    ensures WakeAt(ResyncArg(cfg, Some(deadline), now), now)
         == if !FloorOn(cfg) then None
            else if deadline >= now + MIN_RESYNC_WAKE_MS then Some(deadline)
            else Some(now + MIN_RESYNC_WAKE_MS)
  {
  }

  lemma FloorStep(cfg: Config, s: State, e: Event)
    requires FloorInv(cfg, s) && Enabled(cfg, s, e)
    ensures FloorInv(cfg, Apply(cfg, s, e))
  {
    if cfg.firstDeadline.Some? {
      var deadline := NextDeadline(cfg, s.stamps);
      WakeIsDeadline(cfg, deadline, e.now);
      if e.FloorTick? {
        SpacedAppend(cfg, s.stamps, e.now);
      }
      hide NextDeadline, Spaced, WakeAt, ResyncArg, SatAdd, SatSub, Cooled, FloorOn;
      assert FloorInv(cfg, Apply(cfg, s, e));
    }
  }

  lemma {:induction false} FloorRun(cfg: Config, epochRx: bool, presenceRx: bool, script: seq<Event>)
    ensures FloorInv(cfg, Run(cfg, Initial(cfg, epochRx, presenceRx), script))
  {
    hide FloorInv, Enabled, Apply;
    var start := Initial(cfg, epochRx, presenceRx);
    if script == [] {
      FloorStart(cfg, epochRx, presenceRx);
    } else {
      var before, e := script[..|script| - 1], script[|script| - 1];
      FloorRun(cfg, epochRx, presenceRx, before);
      if Enabled(cfg, Run(cfg, start, before), e) {
        FloorStep(cfg, Run(cfg, start, before), e);
      }
    }
  }

  lemma FloorStart(cfg: Config, epochRx: bool, presenceRx: bool)
    ensures FloorInv(cfg, Initial(cfg, epochRx, presenceRx))
  {
  }

  /** However bumps, kicks, dropped senders and backoffs interleave, the first
      persisted stamp is at or after the first deadline and each next one at least
      an interval later. */
  lemma StampsAreSpaced(cfg: Config, epochRx: bool, presenceRx: bool, script: seq<Event>)
    ensures Spaced(cfg, Run(cfg, Initial(cfg, epochRx, presenceRx), script).stamps)
  {
    FloorRun(cfg, epochRx, presenceRx, script);
  }

  /** The schedule survives a restart: a session that takes its first deadline from
      the last persisted stamp persists no stamp within an interval of it. */
  lemma StampsSpacedAcrossRestart(last: u64, intervalMs: u64, bootMs: u64, epochRx: bool, presenceRx: bool,
                                  script: seq<Event>)
    requires last <= bootMs
    ensures var cfg := Config(Some(FirstResyncDeadline(Some(last), intervalMs, bootMs)), Some(intervalMs));
            var stamps := Run(cfg, Initial(cfg, epochRx, presenceRx), script).stamps;
            stamps != [] ==> intervalMs > 0 && SatAdd(last, intervalMs) <= stamps[0]
  {
    var cfg := Config(Some(FirstResyncDeadline(Some(last), intervalMs, bootMs)), Some(intervalMs));
    StampsAreSpaced(cfg, epochRx, presenceRx, script);
  }

  /** Churn cannot postpone the floor: however often a driver parks, it parks until
      the one deadline, or for a second if that has passed. */
  lemma ChurnCannotPostpone(cfg: Config, epochRx: bool, presenceRx: bool, script: seq<Event>, now: u64)
    requires cfg.firstDeadline.Some? && FloorOn(cfg)
    ensures var s := Run(cfg, Initial(cfg, epochRx, presenceRx), script);
            var deadline := NextDeadline(cfg, s.stamps);
            Enabled(cfg, s, Look(now, false, Idle)) ==>
              Apply(cfg, s, Look(now, false, Idle)).phase
              == Parked(Some(if deadline >= now + MIN_RESYNC_WAKE_MS then deadline else now + MIN_RESYNC_WAKE_MS))
  {
    FloorRun(cfg, epochRx, presenceRx, script);
  }

  // ----- the cooldown -----

  /** A re-request caused by an epoch or presence re-arm comes at least the
      cooldown after the request before it. */
  predicate Rested(sent: seq<Sent>) {
    forall i :: 0 <= i < |sent| && sent[i].cause.ByEdge? ==> Cooled(sent[i].previous, sent[i].at)
  }

  /** The guard of the branch that ends a cooldown before its time: while the
      driver cools down and the target is still ahead, the shutdown watch is
      notified and its value is false. */
  predicate EndsEarly(s: State, e: Event) {
    s.phase.Cooling? && e.ShutdownChanged? && !e.stop && s.clock <= e.now < s.phase.target
  }

  /** No event of the run from position `from` on ends a cooldown early. */
  predicate NoEarlyEnd(cfg: Config, start: State, script: seq<Event>, from: nat) {
    forall i :: from <= i < |script| ==> !EndsEarly(Run(cfg, start, script[..i]), script[i])
  }

  /** What holds of every run, early ends or not. */
  predicate CoolingInv(s: State) {
    s.phase.Cooling? ==>
      s.lastRequestAt.Some? && s.phase.target == SatAdd(s.lastRequestAt.value, EPOCH_REARM_COOLDOWN_MS)
  }

  predicate RestInv(s: State) {
    && Rested(s.sent)
    && CoolingInv(s)
    && (s.phase.Reading? || s.cause.ByEdge? ==> Cooled(s.lastRequestAt, s.clock))
    && (!s.phase.Top? && !s.phase.Stopped? ==> s.cause.ByLatch?)
  }

  lemma RestStep(cfg: Config, s: State, e: Event)
    requires RestInv(s) && Enabled(cfg, s, e) && !EndsEarly(s, e)
    ensures RestInv(Apply(cfg, s, e))
  {
  }

  lemma {:induction false} CoolingRun(cfg: Config, epochRx: bool, presenceRx: bool, script: seq<Event>)
    ensures CoolingInv(Run(cfg, Initial(cfg, epochRx, presenceRx), script))
  {
    if script != [] {
      CoolingRun(cfg, epochRx, presenceRx, script[..|script| - 1]);
    }
  }

  /** A run without early ends keeps the cooldown. */
  lemma {:induction false} RestRun(cfg: Config, epochRx: bool, presenceRx: bool, script: seq<Event>)
    requires NoEarlyEnd(cfg, Initial(cfg, epochRx, presenceRx), script, 0)
    ensures RestInv(Run(cfg, Initial(cfg, epochRx, presenceRx), script))
  {
    hide Enabled, Apply;
    var start := Initial(cfg, epochRx, presenceRx);
    if script != [] {
      var n := |script| - 1;
      var before, e := script[..n], script[n];
      assert forall i :: 0 <= i < n ==> before[i] == script[i] && before[..i] == script[..i];
      RestRun(cfg, epochRx, presenceRx, before);
      hide RestInv;
      assert !EndsEarly(Run(cfg, start, before), e);
      if Enabled(cfg, Run(cfg, start, before), e) {
        RestStep(cfg, Run(cfg, start, before), e);
      }
    }
  }

  lemma RunNothing(cfg: Config, s: State)
    ensures Run(cfg, s, []) == s
  {
  }

  lemma RunStep(cfg: Config, s: State, script: seq<Event>, e: Event)
    ensures Run(cfg, s, script + [e]) == Step(cfg, Run(cfg, s, script), e)
  {
    assert (script + [e])[..|script|] == script;
  }

  /** What a cooldown ended early leads to: the watermark is read and the latch
      sends, both at once. */
  function Hasty(now: u64): seq<Event> {
    [WatermarkRead(now), Look(now, false, Request)]
  }

  lemma HastyRequest(cfg: Config, s: State, e: Event)
    requires CoolingInv(s) && EndsEarly(s, e)
    ensures var sent := Step(cfg, Step(cfg, Step(cfg, s, e), WatermarkRead(e.now)), Look(e.now, false, Request)).sent;
            !Rested(sent)
  {
    var cooled := Step(cfg, s, e);
    var rearmed := Step(cfg, cooled, WatermarkRead(e.now));
    var sent := Step(cfg, rearmed, Look(e.now, false, Request)).sent;
    assert cooled == s.(clock := e.now, phase := Reading);
    assert rearmed == cooled.(phase := Top, cause := ByEdge);
    assert sent == s.sent + [Sent(e.now, s.lastRequestAt, ByEdge)];
    assert sent[|s.sent|].cause.ByEdge? && !Cooled(sent[|s.sent|].previous, sent[|s.sent|].at);
  }

  /** After an early end, the very next request can break the cooldown. */
  lemma EarlyEndBreaks(cfg: Config, epochRx: bool, presenceRx: bool, script: seq<Event>, e: Event)
    requires EndsEarly(Run(cfg, Initial(cfg, epochRx, presenceRx), script), e)
    ensures !CooldownKept(cfg, epochRx, presenceRx, script + [e] + Hasty(e.now))
  {
    var start := Initial(cfg, epochRx, presenceRx);
    CoolingRun(cfg, epochRx, presenceRx, script);
    HastyRequest(cfg, Run(cfg, start, script), e);
    RunStep(cfg, start, script, e);
    RunStep(cfg, start, script + [e], WatermarkRead(e.now));
    RunStep(cfg, start, script + [e] + [WatermarkRead(e.now)], Look(e.now, false, Request));
    assert script + [e] + Hasty(e.now)
        == script + [e] + [WatermarkRead(e.now)] + [Look(e.now, false, Request)];
  }

  predicate CooldownKept(cfg: Config, epochRx: bool, presenceRx: bool, script: seq<Event>) {
    Rested(Run(cfg, Initial(cfg, epochRx, presenceRx), script).sent)
  }

  /** However the run goes on from its first `n` events, as long as nothing more
      ends a cooldown early, the cooldown is kept. */
  ghost predicate SafeAfter(cfg: Config, epochRx: bool, presenceRx: bool, script: seq<Event>, n: nat)
    requires n <= |script|
  {
    forall rest :: NoEarlyEnd(cfg, Initial(cfg, epochRx, presenceRx), script[..n] + rest, n) ==>
      CooldownKept(cfg, epochRx, presenceRx, script[..n] + rest)
  }

  /** Exactly which notifications break the 60-second cooldown: a run is safe at
      every point, whatever follows, if and only if none of its events is a
      notification of the shutdown watch that leaves it false while the driver
      cools down and the cooldown has not passed. */
  lemma CooldownHoldsIffNoEarlyEnd(cfg: Config, epochRx: bool, presenceRx: bool, script: seq<Event>)
    ensures NoEarlyEnd(cfg, Initial(cfg, epochRx, presenceRx), script, 0)
       <==> forall n :: 0 <= n <= |script| ==> SafeAfter(cfg, epochRx, presenceRx, script, n)
  {
    var start := Initial(cfg, epochRx, presenceRx);
    if NoEarlyEnd(cfg, start, script, 0) {
      forall n | 0 <= n <= |script| ensures SafeAfter(cfg, epochRx, presenceRx, script, n) {
        SafePrefix(cfg, epochRx, presenceRx, script, n);
      }
    } else {
      var i :| 0 <= i < |script| && EndsEarly(Run(cfg, start, script[..i]), script[i]);
      UnsafeAfter(cfg, epochRx, presenceRx, script, i);
      assert !SafeAfter(cfg, epochRx, presenceRx, script, i + 1);
    }
  }

  lemma SafePrefix(cfg: Config, epochRx: bool, presenceRx: bool, script: seq<Event>, n: nat)
    requires n <= |script| && NoEarlyEnd(cfg, Initial(cfg, epochRx, presenceRx), script, 0)
    ensures SafeAfter(cfg, epochRx, presenceRx, script, n)
  {
    var start := Initial(cfg, epochRx, presenceRx);
    forall rest | NoEarlyEnd(cfg, start, script[..n] + rest, n)
      ensures CooldownKept(cfg, epochRx, presenceRx, script[..n] + rest)
    {
      var whole := script[..n] + rest;
      forall i | 0 <= i < |whole| ensures !EndsEarly(Run(cfg, start, whole[..i]), whole[i]) {
        if i < n {
          assert whole[i] == script[i] && whole[..i] == script[..i];
        }
      }
      RestRun(cfg, epochRx, presenceRx, whole);
    }
  }

  lemma UnsafeAfter(cfg: Config, epochRx: bool, presenceRx: bool, script: seq<Event>, i: nat)
    requires i < |script| && EndsEarly(Run(cfg, Initial(cfg, epochRx, presenceRx), script[..i]), script[i])
    ensures !SafeAfter(cfg, epochRx, presenceRx, script, i + 1)
  {
    var e := script[i];
    var whole := script[..i + 1] + Hasty(e.now);
    assert script[..i + 1] == script[..i] + [e];
    EarlyEndBreaks(cfg, epochRx, presenceRx, script[..i], e);
    hide Run, Rested, CooldownKept;
    assert whole[i + 1] == WatermarkRead(e.now) && whole[i + 2] == Look(e.now, false, Request);
    assert NoEarlyEnd(cfg, Initial(cfg, epochRx, presenceRx), whole, i + 1);
  }
}
