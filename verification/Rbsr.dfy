/** Range-based set reconciliation: messages, their validation and the two
    halves of one round (`src-tauri/src/channel_rbsr.rs`).

    The protocol compares digests of slices. It is written, and everything about
    it is proved, for an arbitrary digest function `d`; the code's own is
    `SliceDigest(sha)`, where `sha` stands for SHA-256. */
module Rbsr {
  import opened Prelude
  import opened Fingerprint
  import opened ReconcileKey

  const LEAF_THRESHOLD := 16
  const MAX_RBSR_ROUNDS := 32
  const RBSR_PROTOCOL_VERSION: byte := 1

  type DigestFn = seq<Entry> -> Bytes16

  datatype Mode = Skip | Fingerprint(digest: Bytes16) | Have(keys: seq<Key>)

  /** One range `[previous upper, upper)`; the first starts at `MinKey()`. */
  datatype Range = Range(upper: Key, mode: Mode)

  datatype Message = Message(version: byte, ranges: seq<Range>)

  datatype RbsrError =
    | InvalidVersion(version: byte)
    | InvalidPartition
    | KeyOutOfRange
    | NonCanonicalHave

  // ----- SliceSource queries -----

  function RangeFp(s: seq<Entry>, lo: Key, hi: Key): RangeFingerprint {
    FoldAll(Hashes(Slice(s, lo, hi)))
  }

  function RangeCount(s: seq<Entry>, lo: Key, hi: Key): nat {
    |Slice(s, lo, hi)|
  }

  function KeysInRange(s: seq<Entry>, lo: Key, hi: Key): seq<Key> {
    Keys(Slice(s, lo, hi))
  }

  function SplitKey(s: seq<Entry>, lo: Key, hi: Key): Option<Key> {
    var r := Slice(s, lo, hi);
    if |r| < 2 then None else Some(r[|r| / 2].key)
  }

  function Digest(d: DigestFn, s: seq<Entry>, lo: Key, hi: Key): Bytes16 {
    d(Slice(s, lo, hi))
  }

  /** `range_fingerprint(..).finalize()`. */
  function SliceDigest(sha: seq<byte> -> Bytes32): DigestFn {
    (slice: seq<Entry>) => Finalize(sha, FoldAll(Hashes(slice)))
  }

  /** The fingerprint query's loop over the slice, and what messages carry of it:
      the first 16 bytes of the hash of the range's hash sum and count. */
  method RangeFingerprintLoop(s: seq<Entry>, lo: Key, hi: Key) returns (f: RangeFingerprint)
    ensures f == RangeFp(s, lo, hi)
    ensures forall sha: seq<byte> -> Bytes32 ::
              && Finalize(sha, f) == Digest(SliceDigest(sha), s, lo, hi)
              && IsDigest(sha, Hashes(Slice(s, lo, hi)), Finalize(sha, f))
  {
    f := ZERO;
    var r := Slice(s, lo, hi);
    for i := 0 to |r|
      invariant f == FoldAll(Hashes(r)[..i])
    {
      assert Hashes(r)[..i + 1][..i] == Hashes(r)[..i];
      f := Fold(f, r[i].hash);
    }
    assert Hashes(r)[..|r|] == Hashes(r);
    forall sha: seq<byte> -> Bytes32 ensures IsDigest(sha, Hashes(r), Finalize(sha, f)) {
      FinalizeIsDigest(sha, Hashes(r));
    }
  }

  // ----- validate_message -----

  /** Strictly ascending keys, all inside `[lo, hi)`. */
  predicate CanonicalHave(keys: seq<Key>, lo: Key, hi: Key) {
    && (forall i :: 0 <= i < |keys| ==> InRange(keys[i], lo, hi))
    && (forall i :: 0 < i < |keys| ==> Lt(keys[i - 1], keys[i]))
  }

  /** The lower bound of range `i` of a list that starts at `lo`. */
  function LowerBound(lo: Key, ranges: seq<Range>, i: nat): Key
    requires i <= |ranges|
  {
    if i == 0 then lo else ranges[i - 1].upper
  }

  predicate RangeOk(lo: Key, range: Range) {
    && Lt(lo, range.upper)
    && (range.mode.Have? ==> CanonicalHave(range.mode.keys, lo, range.upper))
  }

  /** The list partitions `[lo, last upper)` into non-empty ranges. */
  predicate Ascending(lo: Key, ranges: seq<Range>) {
    forall i :: 0 <= i < |ranges| ==> RangeOk(LowerBound(lo, ranges, i), ranges[i])
  }

  /** What a receiver may rely on: a partition of exactly `[MinKey, MaxKey)`. */
  predicate ValidPartition(m: Message) {
    && m.version == RBSR_PROTOCOL_VERSION
    && m.ranges != []
    && Ascending(MinKey(), m.ranges)
    && m.ranges[|m.ranges| - 1].upper == MaxKey()
  }

  /** The first offending key of a `Have` list and the error it decides. */
  predicate HaveFault(keys: seq<Key>, lo: Key, hi: Key, error: RbsrError) {
    exists i :: 0 <= i < |keys| && CanonicalHave(keys[..i], lo, hi)
      && error == (if !InRange(keys[i], lo, hi) then KeyOutOfRange else NonCanonicalHave)
      && !CanonicalHave(keys[..i + 1], lo, hi)
  }

  /** The first offending range of a message and the error it decides. */
  predicate PartitionFault(ranges: seq<Range>, error: RbsrError) {
    exists i :: 0 <= i < |ranges| && Ascending(MinKey(), ranges[..i]) && RangeFault(ranges, i, error)
  }

  predicate RangeFault(ranges: seq<Range>, i: nat, error: RbsrError)
    requires i < |ranges|
  {
    var lo, range := LowerBound(MinKey(), ranges, i), ranges[i];
    if !Lt(lo, range.upper) then error == InvalidPartition
    else if !RangeOk(lo, range) then HaveFault(range.mode.keys, lo, range.upper, error)
    else i == |ranges| - 1 && range.upper != MaxKey() && error == InvalidPartition
  }

  lemma PrefixAscends(ranges: seq<Range>, i: nat)
    requires i <= |ranges|
    requires forall j :: 0 <= j < i ==> RangeOk(LowerBound(MinKey(), ranges, j), ranges[j])
    ensures Ascending(MinKey(), ranges[..i])
  {
    forall j | 0 <= j < i ensures RangeOk(LowerBound(MinKey(), ranges[..i], j), ranges[..i][j]) {
      assert LowerBound(MinKey(), ranges[..i], j) == LowerBound(MinKey(), ranges, j);
    }
  }

  /** The check of one `Have` list: the first offending key decides the error. */
  method CheckHave(keys: seq<Key>, lo: Key, hi: Key) returns (r: Result<(), RbsrError>)
    ensures r.Ok? <==> CanonicalHave(keys, lo, hi)
    ensures r.Err? ==> HaveFault(keys, lo, hi, r.error)
  {
    hide CanonicalHave, Lt;
    CanonicalNone(keys, lo, hi);
    var prevHave: Option<Key> := None;
    for i := 0 to |keys|
      invariant prevHave == if i == 0 then None else Some(keys[i - 1])
      invariant CanonicalHave(keys[..i], lo, hi)
    {
      var k := keys[i];
      CanonicalStep(keys, lo, hi, i);
      if Lt(k, lo) || Le(hi, k) {
        return Err(KeyOutOfRange);
      }
      if prevHave.Some? && Le(k, prevHave.value) {
        return Err(NonCanonicalHave);
      }
      prevHave := Some(k);
    }
    assert keys[..|keys|] == keys;
    return Ok(());
  }

  lemma CanonicalNone(keys: seq<Key>, lo: Key, hi: Key)
    ensures CanonicalHave(keys[..0], lo, hi)
  {
  }

  lemma CanonicalStep(keys: seq<Key>, lo: Key, hi: Key, i: nat)
    requires i < |keys| && CanonicalHave(keys[..i], lo, hi)
    ensures CanonicalHave(keys[..i + 1], lo, hi) <==> InRange(keys[i], lo, hi) && (i > 0 ==> Lt(keys[i - 1], keys[i]))
    ensures !CanonicalHave(keys[..i + 1], lo, hi) ==> !CanonicalHave(keys, lo, hi)
  {
    hide Lt, InRange;
    var now, before := keys[..i + 1], keys[..i];
    assert now[i] == keys[i] && forall j :: 0 <= j < i ==> now[j] == before[j] == keys[j];
  }

  /** `validate_message` accepts exactly the well-formed partitions. */
  method ValidateMessage(m: Message) returns (r: Result<(), RbsrError>)
    ensures r.Ok? <==> ValidPartition(m)
    ensures r.Err? ==>
              if m.version != RBSR_PROTOCOL_VERSION then r.error == InvalidVersion(m.version)
              else if m.ranges == [] then r.error == InvalidPartition
              else PartitionFault(m.ranges, r.error)
  {
    if m.version != RBSR_PROTOCOL_VERSION {
      return Err(InvalidVersion(m.version));
    }
    if m.ranges == [] {
      return Err(InvalidPartition);
    }
    var last := |m.ranges| - 1;
    var prev := MinKey();
    for i := 0 to |m.ranges|
      invariant prev == LowerBound(MinKey(), m.ranges, i)
      invariant forall j :: 0 <= j < i ==> RangeOk(LowerBound(MinKey(), m.ranges, j), m.ranges[j])
      invariant i == |m.ranges| ==> m.ranges[last].upper == MaxKey()
    {
      var range := m.ranges[i];
      PrefixAscends(m.ranges, i);
      LtTotal(prev, range.upper);
      hide Lt, CanonicalHave, HaveFault;
      if Le(range.upper, prev) {
        assert RangeFault(m.ranges, i, InvalidPartition);
        return Err(InvalidPartition);
      }
      if range.mode.Have? {
        var checked := CheckHave(range.mode.keys, prev, range.upper);
        if checked.Err? {
          assert RangeFault(m.ranges, i, checked.error);
          return checked;
        }
      }
      if i == last && range.upper != MaxKey() {
        assert RangeFault(m.ranges, i, InvalidPartition);
        return Err(InvalidPartition);
      }
      prev := range.upper;
    }
    return Ok(());
  }

  // ----- building a message -----

  /** `push_range`: adjacent `Skip` ranges coalesce. */
  function Push(out: seq<Range>, upper: Key, mode: Mode): seq<Range> {
    if mode.Skip? && out != [] && out[|out| - 1].mode.Skip?
    then out[..|out| - 1] + [Range(upper, Skip)]
    else out + [Range(upper, mode)]
  }

  function PushAll(out: seq<Range>, ranges: seq<Range>): seq<Range>
    decreases ranges
  {
    if ranges == [] then out
    else PushAll(Push(out, ranges[0].upper, ranges[0].mode), ranges[1..])
  }

  lemma {:induction false} PushAllConcat(out: seq<Range>, a: seq<Range>, b: seq<Range>)
    ensures PushAll(out, a + b) == PushAll(PushAll(out, a), b)
    decreases a
  {
    if a == [] {
      assert a + b == b;
    } else {
      PushAllConcat(Push(out, a[0].upper, a[0].mode), a[1..], b);
      assert (a + b)[1..] == a[1..] + b;
    }
  }

  lemma PushOneTwo(out: seq<Range>, a: Range, b: Range)
    ensures PushAll(out, [a]) == Push(out, a.upper, a.mode)
    ensures PushAll(out, [a, b]) == Push(Push(out, a.upper, a.mode), b.upper, b.mode)
  {
    assert [a][1..] == [] && [a, b][1..] == [b] && [b][1..] == [];
    assert PushAll(out, [a, b]) == PushAll(Push(out, a.upper, a.mode), [b]);
  }

  // ----- initial_request -----

  function InitialRequest(d: DigestFn, source: seq<Entry>): Message {
    Message(RBSR_PROTOCOL_VERSION, [Range(MaxKey(), Fingerprint(Digest(d, source, MinKey(), MaxKey())))])
  }

  // ----- respond -----

  /** What one incoming range turns into, before coalescing. */
  function RespondRange(d: DigestFn, source: seq<Entry>, lo: Key, range: Range): seq<Range> {
    var hi := range.upper;
    if !range.mode.Fingerprint? || Digest(d, source, lo, hi) == range.mode.digest then
      [Range(hi, Skip)]
    else if RangeCount(source, lo, hi) <= LEAF_THRESHOLD then
      [Range(hi, Have(KeysInRange(source, lo, hi)))]
    else
      match SplitKey(source, lo, hi)
      case None => [Range(hi, Have(KeysInRange(source, lo, hi)))]
      case Some(mid) =>
        if Lt(lo, mid) && Lt(mid, hi) then
          [Range(mid, Fingerprint(Digest(d, source, lo, mid))),
           Range(hi, Fingerprint(Digest(d, source, mid, hi)))]
        else
          [Range(hi, Have(KeysInRange(source, lo, hi)))]
  }

  function RespondRanges(d: DigestFn, source: seq<Entry>, lo: Key, ranges: seq<Range>): seq<Range>
    decreases ranges
  {
    if ranges == [] then []
    else RespondRange(d, source, lo, ranges[0]) + RespondRanges(d, source, ranges[0].upper, ranges[1..])
  }

  function Respond(d: DigestFn, source: seq<Entry>, request: Message): Message {
    Message(RBSR_PROTOCOL_VERSION, PushAll([], RespondRanges(d, source, MinKey(), request.ranges)))
  }

  /** The responder's loop: `lo` moves up range by range while `out` grows. */
  method RespondLoop(d: DigestFn, source: seq<Entry>, request: Message) returns (reply: Message)
    ensures reply == Respond(d, source, request)
  {
    var out: seq<Range> := [];
    var first := MinKey();
    var lo := first;
    var ranges := request.ranges;
    for i := 0 to |ranges|
      invariant lo == LowerBound(first, ranges, i)
      invariant out == PushAll([], RespondRanges(d, source, first, ranges[..i]))
    {
      out := RespondStep(d, source, lo, ranges[i], out);
      RespondRangesStep(d, source, first, ranges, i);
      lo := ranges[i].upper;
    }
    assert ranges[..|ranges|] == ranges;
    reply := Message(RBSR_PROTOCOL_VERSION, out);
  }

  lemma {:induction false} RespondRangesStep(d: DigestFn, source: seq<Entry>, lo: Key, ranges: seq<Range>, i: nat)
    requires i < |ranges|
    ensures PushAll([], RespondRanges(d, source, lo, ranges[..i + 1]))
         == PushAll(PushAll([], RespondRanges(d, source, lo, ranges[..i])),
                    RespondRange(d, source, LowerBound(lo, ranges, i), ranges[i]))
  {
    RespondRangesAppend(d, source, lo, ranges[..i], ranges[i]);
    assert ranges[..i + 1] == ranges[..i] + [ranges[i]];
    PushAllConcat([], RespondRanges(d, source, lo, ranges[..i]),
                  RespondRange(d, source, LowerBound(lo, ranges, i), ranges[i]));
  }

  lemma {:induction false} RespondRangesAppend(d: DigestFn, source: seq<Entry>, lo: Key, a: seq<Range>, r: Range)
    ensures RespondRanges(d, source, lo, a + [r])
         == RespondRanges(d, source, lo, a) + RespondRange(d, source, LowerBound(lo, a, |a|), r)
    decreases a
  {
    hide RespondRange;
    if a == [] {
      assert a + [r] == [r] && [r][1..] == [];
    } else {
      RespondRangesAppend(d, source, a[0].upper, a[1..], r);
      assert (a + [r])[1..] == a[1..] + [r];
      assert LowerBound(a[0].upper, a[1..], |a| - 1) == LowerBound(lo, a, |a|);
    }
  }

  /** The loop body: one incoming range, pushed onto the reply under construction. */
  method RespondStep(d: DigestFn, source: seq<Entry>, lo: Key, range: Range, out: seq<Range>)
    returns (out': seq<Range>)
    ensures out' == PushAll(out, RespondRange(d, source, lo, range))
  {
    var hi := range.upper;
    ghost var emitted := RespondRange(d, source, lo, range);
    PushOneTwo(out, emitted[0], emitted[|emitted| - 1]);
    match range.mode
    case Fingerprint(theirs) =>
      var mine := Digest(d, source, lo, hi);
      if mine == theirs {
        out' := Push(out, hi, Skip);
      } else if RangeCount(source, lo, hi) <= LEAF_THRESHOLD {
        out' := Push(out, hi, Have(KeysInRange(source, lo, hi)));
      } else {
        var split := SplitKey(source, lo, hi);
        if split.Some? && Lt(lo, split.value) && Lt(split.value, hi) {
          var mid := split.value;
          out' := Push(out, mid, Fingerprint(Digest(d, source, lo, mid)));
          out' := Push(out', hi, Fingerprint(Digest(d, source, mid, hi)));
        } else {
          out' := Push(out, hi, Have(KeysInRange(source, lo, hi)));
        }
      }
    case _ =>
      out' := Push(out, hi, Skip);
  }

  // ----- process_reply -----

  /** What one reply range becomes in the next request, before coalescing. */
  function NextRange(d: DigestFn, source: seq<Entry>, lo: Key, range: Range): Range {
    if !range.mode.Fingerprint? then Range(range.upper, Skip)
    else
      var mine := Digest(d, source, lo, range.upper);
      Range(range.upper, if mine == range.mode.digest then Skip else Fingerprint(mine))
  }

  function NextRanges(d: DigestFn, source: seq<Entry>, lo: Key, ranges: seq<Range>): seq<Range>
    decreases ranges
  {
    if ranges == [] then []
    else [NextRange(d, source, lo, ranges[0])] + NextRanges(d, source, ranges[0].upper, ranges[1..])
  }

  /** The keys of `theirs` that are not in `mine`, in order. */
  function Lacking(theirs: seq<Key>, mine: seq<Key>): seq<Key> {
    if theirs == [] then []
    else (if theirs[0] in mine then [] else [theirs[0]]) + Lacking(theirs[1..], mine)
  }

  function MissingIn(source: seq<Entry>, lo: Key, range: Range): seq<Key> {
    if range.mode.Have? then Lacking(range.mode.keys, KeysInRange(source, lo, range.upper)) else []
  }

  function MissingKeys(source: seq<Entry>, lo: Key, ranges: seq<Range>): seq<Key>
    decreases ranges
  {
    if ranges == [] then []
    else MissingIn(source, lo, ranges[0]) + MissingKeys(source, ranges[0].upper, ranges[1..])
  }

  predicate AnyMismatch(ranges: seq<Range>) {
    exists i :: 0 <= i < |ranges| && ranges[i].mode.Fingerprint?
  }

  /** The next request: absent once no range of the reply mismatches. */
  function NextRequest(d: DigestFn, source: seq<Entry>, reply: Message): Option<Message> {
    var next := NextRanges(d, source, MinKey(), reply.ranges);
    if AnyMismatch(next) then Some(Message(RBSR_PROTOCOL_VERSION, PushAll([], next))) else None
  }

  method LackingLoop(theirs: seq<Key>, mine: seq<Key>) returns (missing: seq<Key>)
    ensures missing == Lacking(theirs, mine)
  {
    missing := [];
    var local := set k | k in mine;
    hide Lacking;
    assert theirs[0..] == theirs;
    for i := 0 to |theirs|
      invariant missing + Lacking(theirs[i..], mine) == Lacking(theirs, mine)
    {
      LackingStep(theirs, mine, i);
      if theirs[i] !in local {
        ConcatAssociates(missing, [theirs[i]], Lacking(theirs[i + 1..], mine));
        missing := missing + [theirs[i]];
      }
    }
    LackingStep(theirs, mine, |theirs|);
  }

  lemma LackingStep(theirs: seq<Key>, mine: seq<Key>, i: nat)
    requires i <= |theirs|
    ensures if i == |theirs| then Lacking(theirs[i..], mine) == []
            else var rest := Lacking(theirs[i + 1..], mine);
                 Lacking(theirs[i..], mine) == if theirs[i] in mine then rest else [theirs[i]] + rest
  {
    if i < |theirs| {
      DropOne(theirs, i);
    }
  }

  /** The requester's loop. */
  method ProcessReplyLoop(d: DigestFn, source: seq<Entry>, reply: Message)
    returns (missing: seq<Key>, next: Option<Message>)
    ensures missing == MissingKeys(source, MinKey(), reply.ranges)
    ensures next == NextRequest(d, source, reply)
  {
    missing := [];
    var out: seq<Range> := [];
    var anyMismatch := false;
    var first := MinKey();
    var lo := first;
    var ranges := reply.ranges;
    for i := 0 to |ranges|
      invariant lo == LowerBound(first, ranges, i)
      invariant missing == MissingKeys(source, first, ranges[..i])
      invariant out == PushAll([], NextRanges(d, source, first, ranges[..i]))
      invariant anyMismatch == AnyMismatch(NextRanges(d, source, first, ranges[..i]))
    {
      var m, u, mode := ProcessStep(d, source, lo, ranges[i]);
      ProcessRangesStep(d, source, first, ranges, i);
      missing := missing + m;
      anyMismatch := anyMismatch || mode.Fingerprint?;
      out := Push(out, u, mode);
      lo := ranges[i].upper;
    }
    assert ranges[..|ranges|] == ranges;
    next := if anyMismatch then Some(Message(RBSR_PROTOCOL_VERSION, out)) else None;
  }

  /** The loop body: the keys lacking from one reply range and the range to push. */
  method ProcessStep(d: DigestFn, source: seq<Entry>, lo: Key, range: Range)
    returns (missing: seq<Key>, upper: Key, mode: Mode)
    ensures missing == MissingIn(source, lo, range)
    ensures Range(upper, mode) == NextRange(d, source, lo, range)
  {
    var hi := range.upper;
    missing, upper := [], hi;
    match range.mode
    case Skip =>
      mode := Skip;
    case Have(keys) =>
      missing := LackingLoop(keys, KeysInRange(source, lo, hi));
      mode := Skip;
    case Fingerprint(theirs) =>
      var mine := Digest(d, source, lo, hi);
      mode := if mine == theirs then Skip else Fingerprint(mine);
  }

  lemma {:induction false} ProcessRangesStep(d: DigestFn, source: seq<Entry>, lo: Key, ranges: seq<Range>, i: nat)
    requires i < |ranges|
    ensures var next := NextRange(d, source, LowerBound(lo, ranges, i), ranges[i]);
            var before, after := NextRanges(d, source, lo, ranges[..i]), NextRanges(d, source, lo, ranges[..i + 1]);
            && PushAll([], after) == Push(PushAll([], before), next.upper, next.mode)
            && (AnyMismatch(after) <==> AnyMismatch(before) || next.mode.Fingerprint?)
    ensures MissingKeys(source, lo, ranges[..i + 1])
         == MissingKeys(source, lo, ranges[..i]) + MissingIn(source, LowerBound(lo, ranges, i), ranges[i])
  {
    ProcessRangesAppend(d, source, lo, ranges[..i], ranges[i]);
    assert ranges[..i + 1] == ranges[..i] + [ranges[i]];
    var next := NextRange(d, source, LowerBound(lo, ranges, i), ranges[i]);
    var before := NextRanges(d, source, lo, ranges[..i]);
    PushAllConcat([], before, [next]);
    PushOneTwo(PushAll([], before), next, next);
    AnyMismatchAppend(before, next);
  }

  lemma {:induction false} ProcessRangesAppend(d: DigestFn, source: seq<Entry>, lo: Key, a: seq<Range>, r: Range)
    ensures NextRanges(d, source, lo, a + [r])
         == NextRanges(d, source, lo, a) + [NextRange(d, source, LowerBound(lo, a, |a|), r)]
    ensures MissingKeys(source, lo, a + [r])
         == MissingKeys(source, lo, a) + MissingIn(source, LowerBound(lo, a, |a|), r)
    decreases a
  {
    if a == [] {
      ProcessRangesOne(d, source, lo, a, r);
    } else {
      hide *;
      LowerBoundShifts(lo, a);
      ProcessRangesAppend(d, source, a[0].upper, a[1..], r);
      ConcatFirst(a, [r]);
      ProcessRangesCons(d, source, lo, a);
      ProcessRangesCons(d, source, lo, a + [r]);
      var last := LowerBound(lo, a, |a|);
      ConcatAssociates([NextRange(d, source, lo, a[0])], NextRanges(d, source, a[0].upper, a[1..]),
                       [NextRange(d, source, last, r)]);
      ConcatAssociates(MissingIn(source, lo, a[0]), MissingKeys(source, a[0].upper, a[1..]),
                       MissingIn(source, last, r));
    }
  }

  lemma LowerBoundShifts(lo: Key, a: seq<Range>)
    requires a != []
    ensures LowerBound(a[0].upper, a[1..], |a[1..]|) == LowerBound(lo, a, |a|)
  {
  }

  lemma ProcessRangesOne(d: DigestFn, source: seq<Entry>, lo: Key, a: seq<Range>, r: Range)
    requires a == []
    ensures NextRanges(d, source, lo, a + [r])
         == NextRanges(d, source, lo, a) + [NextRange(d, source, LowerBound(lo, a, |a|), r)]
    ensures MissingKeys(source, lo, a + [r])
         == MissingKeys(source, lo, a) + MissingIn(source, LowerBound(lo, a, |a|), r)
  {
    assert a + [r] == [r] && [r][1..] == [];
    hide NextRange, MissingIn;
  }

  lemma ProcessRangesCons(d: DigestFn, source: seq<Entry>, lo: Key, a: seq<Range>)
    requires a != []
    ensures NextRanges(d, source, lo, a) == [NextRange(d, source, lo, a[0])] + NextRanges(d, source, a[0].upper, a[1..])
    ensures MissingKeys(source, lo, a) == MissingIn(source, lo, a[0]) + MissingKeys(source, a[0].upper, a[1..])
  {
    hide NextRange, MissingIn;
  }

  lemma AnyMismatchAppend(a: seq<Range>, r: Range)
    ensures AnyMismatch(a + [r]) <==> AnyMismatch(a) || r.mode.Fingerprint?
  {
    if r.mode.Fingerprint? {
      assert (a + [r])[|a|].mode.Fingerprint?;
    }
    if AnyMismatch(a) {
      var i :| 0 <= i < |a| && a[i].mode.Fingerprint?;
      assert (a + [r])[i].mode.Fingerprint?;
    }
  }
}
