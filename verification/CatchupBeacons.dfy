/** Committee catch-up: which VRF beacons a responder serves, and paging through
    them with a watermark (`src-tauri/src/community_dfrost_catchup.rs`). */
module CatchupBeacons {
  import opened Prelude
  import Key = ReconcileKey

  const MAX_FORWARD_SKEW_MS := 300_000

  datatype EventKind = DkgComplete | VrfBeacon | ResetMarker | OtherKind

  datatype CommitteeEvent = CommitteeEvent(kind: EventKind, actor: Id16, hlc: Hlc, payload: seq<byte>)

  /** Message hash and VRF output of a beacon payload, if it decodes. */
  type BeaconDecoder = seq<byte> -> Option<(Bytes32, Bytes32)>

  // ----- clock order -----

  /** The derived order on `(wall_ms, logical, device_id)`. */
  predicate HlcLt(a: Hlc, b: Hlc) {
    if a.wallMs != b.wallMs then a.wallMs < b.wallMs
    else if a.logical != b.logical then a.logical < b.logical
    else Key.LexLt(a.deviceId, b.deviceId)
  }

  lemma HlcTotal(a: Hlc, b: Hlc)
    ensures HlcLt(a, b) || a == b || HlcLt(b, a)
    ensures !(HlcLt(a, b) && HlcLt(b, a))
  {
    Key.LexTotal(a.deviceId, b.deviceId);
  }

  lemma HlcTrans(a: Hlc, b: Hlc, c: Hlc)
    requires HlcLt(a, b) && !HlcLt(c, b)
    ensures HlcLt(a, c)
  {
    HlcTotal(b, c);
    if b != c && a.deviceId != b.deviceId && Key.LexLt(a.deviceId, b.deviceId) && Key.LexLt(b.deviceId, c.deviceId) {
      Key.LexTrans(a.deviceId, b.deviceId, c.deviceId);
    }
    if Key.LexLt(a.deviceId, b.deviceId) && Key.LexLt(b.deviceId, c.deviceId) {
      Key.LexTrans(a.deviceId, b.deviceId, c.deviceId);
    }
  }

  /** `DfrostLog::events` iterates by envelope clock. */
  predicate HlcOrdered(log: seq<CommitteeEvent>) {
    forall i, j :: 0 <= i < j < |log| ==> !HlcLt(log[j].hlc, log[i].hlc)
  }

  predicate HlcDistinct(log: seq<CommitteeEvent>) {
    forall i, j :: 0 <= i < j < |log| ==> log[i].hlc != log[j].hlc
  }

  // ----- admission -----

  predicate RejectFuture(stamp: u64, now: u64, tolerance: u64) {
    SatSub(stamp, now) > tolerance
  }

  /** A beacon whose envelope is not implausibly future; clock 0 is unreadable
      and disables the gate. */
  predicate Admissible(e: CommitteeEvent, nowMs: u64) {
    e.kind.VrfBeacon? && (nowMs == 0 || !RejectFuture(e.hlc.wallMs, nowMs, MAX_FORWARD_SKEW_MS))
  }

  function Admitted(log: seq<CommitteeEvent>, nowMs: u64): seq<CommitteeEvent> {
    if log == [] then []
    else (if Admissible(log[0], nowMs) then [log[0]] else []) + Admitted(log[1..], nowMs)
  }

  /** Exactly the beacons at most five minutes ahead of the clock, or all of them when
      it cannot be read. */
  lemma AdmissibleIs(e: CommitteeEvent, nowMs: u64)
    ensures Admissible(e, nowMs)
       <==> e.kind == VrfBeacon && (nowMs == 0 || e.hlc.wallMs <= nowMs + 300_000)
  {
  }

  method AdmitBeacons(log: seq<CommitteeEvent>, nowMs: u64) returns (admitted: seq<CommitteeEvent>)
    ensures admitted == Admitted(log, nowMs)
    ensures forall e :: e in admitted
              <==> e in log && e.kind == VrfBeacon && (nowMs == 0 || e.hlc.wallMs <= nowMs + 300_000)
  {
    admitted := [];
    for i := 0 to |log|
      invariant admitted + Admitted(log[i..], nowMs) == Admitted(log, nowMs)
    {
      DropOne(log, i);
      if !log[i].kind.VrfBeacon? {
        assert Admitted(log[i..], nowMs) == Admitted(log[i + 1..], nowMs);
        continue;
      }
      if nowMs != 0 && RejectFuture(log[i].hlc.wallMs, nowMs, MAX_FORWARD_SKEW_MS) {
        assert Admitted(log[i..], nowMs) == Admitted(log[i + 1..], nowMs);
        continue;
      }
      ConcatAssociates(admitted, [log[i]], Admitted(log[i + 1..], nowMs));
      admitted := admitted + [log[i]];
    }
    forall e ensures e in admitted
        <==> e in log && e.kind == VrfBeacon && (nowMs == 0 || e.hlc.wallMs <= nowMs + 300_000)
    {
      AdmittedMember(log, nowMs, e);
      AdmissibleIs(e, nowMs);
    }
  }

  /** The clock of the last admitted beacon: what the requester asks above. */
  function BeaconWatermarkOf(log: seq<CommitteeEvent>, nowMs: u64): Option<Hlc> {
    var admitted := Admitted(log, nowMs);
    if admitted == [] then None else Some(admitted[|admitted| - 1].hlc)
  }

  lemma {:induction false} AdmittedMember(log: seq<CommitteeEvent>, nowMs: u64, e: CommitteeEvent)
    ensures e in Admitted(log, nowMs) <==> e in log && Admissible(e, nowMs)
  {
    if log != [] {
      AdmittedMember(log[1..], nowMs, e);
      assert log == [log[0]] + log[1..];
    }
  }

  lemma {:induction false} AdmittedOrdered(log: seq<CommitteeEvent>, nowMs: u64)
    requires HlcOrdered(log)
    ensures HlcOrdered(Admitted(log, nowMs))
  {
    if log != [] {
      AdmittedOrdered(log[1..], nowMs);
      var rest := Admitted(log[1..], nowMs);
      forall j | 0 <= j < |rest| ensures !HlcLt(rest[j].hlc, log[0].hlc) {
        AdmittedMember(log[1..], nowMs, rest[j]);
        var i :| 0 <= i < |log[1..]| && log[1..][i] == rest[j];
        assert log[i + 1] == rest[j];
      }
    }
  }

  /** The watermark is the greatest clock of an admissible beacon, and a readable
      local clock bounds it. */
  lemma WatermarkIsGreatest(log: seq<CommitteeEvent>, nowMs: u64, e: CommitteeEvent)
    requires HlcOrdered(log) && e in log && Admissible(e, nowMs)
    ensures var w := BeaconWatermarkOf(log, nowMs);
            && w.Some? && !HlcLt(w.value, e.hlc)
            && (exists x :: x in log && Admissible(x, nowMs) && x.hlc == w.value)
            && (nowMs != 0 ==> w.value.wallMs <= nowMs + MAX_FORWARD_SKEW_MS)
  {
    var admitted := Admitted(log, nowMs);
    AdmittedMember(log, nowMs, e);
    AdmittedOrdered(log, nowMs);
    var last := admitted[|admitted| - 1];
    AdmittedMember(log, nowMs, last);
    HlcTotal(e.hlc, e.hlc);
    var i :| 0 <= i < |admitted| && admitted[i] == e;
  }

  // ----- ties -----

  /** Two admitted beacons give one message hash different outputs. */
  predicate HasTwoOutputs(decode: BeaconDecoder, admitted: seq<CommitteeEvent>, hash: Bytes32) {
    exists i, j :: 0 <= i < |admitted| && 0 <= j < |admitted| && Conflict(decode, admitted[i], admitted[j], hash)
  }

  predicate Conflict(decode: BeaconDecoder, a: CommitteeEvent, b: CommitteeEvent, hash: Bytes32) {
    var da, db := decode(a.payload), decode(b.payload);
    da.Some? && db.Some? && da.value.0 == hash && db.value.0 == hash && da.value.1 != db.value.1
  }

  predicate Tied(decode: BeaconDecoder, admitted: seq<CommitteeEvent>, e: CommitteeEvent) {
    var d := decode(e.payload);
    d.Some? && HasTwoOutputs(decode, admitted, d.value.0)
  }

  predicate Above(watermark: Option<Hlc>, e: CommitteeEvent) {
    watermark.None? || HlcLt(watermark.value, e.hlc)
  }

  function TiedFlags(decode: BeaconDecoder, admitted: seq<CommitteeEvent>): (f: seq<bool>)
    ensures |f| == |admitted|
  {
    seq(|admitted|, i requires 0 <= i < |admitted| => Tied(decode, admitted, admitted[i]))
  }

  function AboveFlags(watermark: Option<Hlc>, admitted: seq<CommitteeEvent>): (f: seq<bool>)
    ensures |f| == |admitted|
  {
    seq(|admitted|, i requires 0 <= i < |admitted| => Above(watermark, admitted[i]))
  }

  function OutputsOf(decode: BeaconDecoder, admitted: seq<CommitteeEvent>, hash: Bytes32): set<Bytes32> {
    set i | 0 <= i < |admitted| && decode(admitted[i].payload).Some? && decode(admitted[i].payload).value.0 == hash
      :: decode(admitted[i].payload).value.1
  }

  lemma TwoOutputs(decode: BeaconDecoder, admitted: seq<CommitteeEvent>, hash: Bytes32)
    ensures HasTwoOutputs(decode, admitted, hash) <==> |OutputsOf(decode, admitted, hash)| >= 2
  {
    var outputs := OutputsOf(decode, admitted, hash);
    if HasTwoOutputs(decode, admitted, hash) {
      var i, j :| 0 <= i < |admitted| && 0 <= j < |admitted| && Conflict(decode, admitted[i], admitted[j], hash);
      var pair := {decode(admitted[i].payload).value.1, decode(admitted[j].payload).value.1};
      assert pair <= outputs;
      assert outputs == pair + (outputs - pair);
    }
    if |outputs| >= 2 {
      var a :| a in outputs;
      assert |outputs - {a}| >= 1;
      var b :| b in outputs - {a};
      var i :| 0 <= i < |admitted| && decode(admitted[i].payload) == Some((hash, a));
      var j :| 0 <= j < |admitted| && decode(admitted[j].payload) == Some((hash, b));
      assert Conflict(decode, admitted[i], admitted[j], hash);
    }
  }

  /** The message hashes with two or more distinct outputs. */
  method TiedHashes(decode: BeaconDecoder, admitted: seq<CommitteeEvent>) returns (tied: set<Bytes32>)
    ensures forall h :: h in tied <==> HasTwoOutputs(decode, admitted, h)
  {
    var outputsByHash: map<Bytes32, set<Bytes32>> := map[];
    for i := 0 to |admitted|
      invariant forall h: Bytes32 ::
                  OutputsOf(decode, admitted[..i], h) == if h in outputsByHash then outputsByHash[h] else {}
    {
      var d := decode(admitted[i].payload);
      ghost var before := outputsByHash;
      if d.Some? {
        var (hash, output) := d.value;
        outputsByHash := outputsByHash[hash := (if hash in outputsByHash then outputsByHash[hash] else {}) + {output}];
      }
      forall h: Bytes32
        ensures OutputsOf(decode, admitted[..i + 1], h) == if h in outputsByHash then outputsByHash[h] else {}
      {
        OutputsStep(decode, admitted, i, h);
      }
    }
    assert admitted[..|admitted|] == admitted;
    forall h: Bytes32
      ensures HasTwoOutputs(decode, admitted, h) <==> h in outputsByHash && |outputsByHash[h]| >= 2
    {
      TwoOutputs(decode, admitted, h);
      assert OutputsOf(decode, admitted[..|admitted|], h) == if h in outputsByHash then outputsByHash[h] else {};
    }
    tied := set h | h in outputsByHash && |outputsByHash[h]| >= 2;
  }

  lemma OutputsStep(decode: BeaconDecoder, admitted: seq<CommitteeEvent>, i: nat, h: Bytes32)
    requires i < |admitted|
    ensures var d := decode(admitted[i].payload);
            OutputsOf(decode, admitted[..i + 1], h)
            == OutputsOf(decode, admitted[..i], h) + if d.Some? && d.value.0 == h then {d.value.1} else {}
  {
    var d := decode(admitted[i].payload);
    forall o | o in OutputsOf(decode, admitted[..i], h) ensures o in OutputsOf(decode, admitted[..i + 1], h) {
      var j :| 0 <= j < i && decode(admitted[..i][j].payload) == Some((h, o));
      assert admitted[..i + 1][j] == admitted[j];
    }
    if d.Some? && d.value.0 == h {
      assert admitted[..i + 1][i] == admitted[i];
    }
  }
}
