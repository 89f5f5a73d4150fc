/** The byte strings hashed into committee ceremony ids
    (`src-tauri/src/community_dfrost_types.rs`). */
module CeremonyId {
  import opened Prelude
  import opened Fingerprint

  /** What a ceremony id is derived from. */
  datatype Ceremony =
    | Dkg(members: seq<Bytes16>, threshold: u16, mintedWallMs: u64, mintedLogical: u32, space: Bytes16)
    | Refresh(members: seq<Bytes16>, threshold: u16, proposedEpoch: u64, attempt: u32, space: Bytes16)
    | Repair(participant: Bytes16, epoch: u64, helpers: seq<Bytes16>, mintedWallMs: u64, mintedLogical: u32,
             space: Bytes16)

  /** `refresh-v1` and `repair-v1`. */
  const REFRESH_TAG: seq<byte> := [0x72, 0x65, 0x66, 0x72, 0x65, 0x73, 0x68, 0x2D, 0x76, 0x31]
  const REPAIR_TAG: seq<byte> := [0x72, 0x65, 0x70, 0x61, 0x69, 0x72, 0x2D, 0x76, 0x31]

  function Flat(members: seq<Bytes16>): (s: seq<byte>)
    ensures |s| == 16 * |members|
  {
    if members == [] then [] else Flat(members[..|members| - 1]) + members[|members| - 1]
  }

  function Preimage(c: Ceremony): seq<byte> {
    match c
    case Dkg(members, threshold, wall, logical, space) =>
      Flat(members) + (LeBytes(threshold, 2) + (LeBytes(wall, 8) + (LeBytes(logical, 4) + space)))
    case Refresh(members, threshold, epoch, attempt, space) =>
      Flat(members) + (LeBytes(epoch, 8) + (LeBytes(threshold, 2) + (REFRESH_TAG + (space + AttemptBytes(attempt)))))
    case Repair(participant, epoch, helpers, wall, logical, space) =>
      var stamp := LeBytes(wall, 8) + (LeBytes(logical, 4) + (REPAIR_TAG + space));
      participant + (LeBytes(epoch, 8) + (Flat(helpers) + stamp))
  }

  /** Only retries carry their number. */
  function AttemptBytes(attempt: u32): seq<byte> {
    if attempt == 0 then [] else LeBytes(attempt, 4)
  }

  // ----- the buffers the code fills -----

  method AppendAll(buffer: seq<byte>, members: seq<Bytes16>) returns (out: seq<byte>)
    ensures out == buffer + Flat(members)
  {
    out := buffer;
    for i := 0 to |members|
      invariant out == buffer + Flat(members[..i])
    {
      assert members[..i + 1][..i] == members[..i];
      ConcatAssociates(buffer, Flat(members[..i]), members[i]);
      out := out + members[i];
    }
    assert members[..|members|] == members;
  }

  method DkgPreimage(members: seq<Bytes16>, threshold: u16, mintedWallMs: u64, mintedLogical: u32, space: Bytes16)
    returns (hasherInput: seq<byte>)
    ensures hasherInput == Preimage(Dkg(members, threshold, mintedWallMs, mintedLogical, space))
    ensures |hasherInput| == 16 * |members| + 30
  {
    hide LeBytes, Flat;
    hasherInput := AppendAll([], members);
    hasherInput := hasherInput + LeBytes(threshold, 2);
    hasherInput := hasherInput + LeBytes(mintedWallMs, 8);
    hasherInput := hasherInput + LeBytes(mintedLogical, 4);
    hasherInput := hasherInput + space;
  }

  method RefreshPreimage(members: seq<Bytes16>, threshold: u16, proposedEpoch: u64, attempt: u32, space: Bytes16)
    returns (hasherInput: seq<byte>)
    ensures hasherInput == Preimage(Refresh(members, threshold, proposedEpoch, attempt, space))
    ensures |hasherInput| == 16 * |members| + if attempt == 0 then 36 else 40
  {
    hide LeBytes, Flat;
    hasherInput := AppendAll([], members);
    hasherInput := hasherInput + LeBytes(proposedEpoch, 8);
    hasherInput := hasherInput + LeBytes(threshold, 2);
    hasherInput := hasherInput + REFRESH_TAG;
    hasherInput := hasherInput + space;
    if attempt != 0 {
      hasherInput := hasherInput + LeBytes(attempt, 4);
    }
  }

  method RepairPreimage(participant: Bytes16, epoch: u64, helpers: seq<Bytes16>, mintedWallMs: u64,
                        mintedLogical: u32, space: Bytes16)
    returns (hasherInput: seq<byte>)
    ensures hasherInput == Preimage(Repair(participant, epoch, helpers, mintedWallMs, mintedLogical, space))
    ensures |hasherInput| == 16 * |helpers| + 61
  {
    hide LeBytes, Flat;
    hasherInput := participant + LeBytes(epoch, 8);
    hasherInput := AppendAll(hasherInput, helpers);
    hasherInput := hasherInput + LeBytes(mintedWallMs, 8);
    hasherInput := hasherInput + LeBytes(mintedLogical, 4);
    hasherInput := hasherInput + REPAIR_TAG;
    hasherInput := hasherInput + space;
  }

  // ----- unambiguity -----

  lemma SplitEqual<T>(a: seq<T>, b: seq<T>, c: seq<T>, d: seq<T>)
    requires |a| == |c| && a + b == c + d
    ensures a == c && b == d
  {
    assert a == (a + b)[..|a|] && c == (c + d)[..|a|];
    assert b == (a + b)[|a|..] && d == (c + d)[|a|..];
  }

  lemma {:induction false} FlatInjective(a: seq<Bytes16>, b: seq<Bytes16>)
    requires |a| == |b| && Flat(a) == Flat(b)
    ensures a == b
  {
    if a != [] {
      var n := |a| - 1;
      SplitEqual(Flat(a[..n]), a[n], Flat(b[..n]), b[n]);
      FlatInjective(a[..n], b[..n]);
      assert a == a[..n] + [a[n]] && b == b[..n] + [b[n]];
    }
  }

  lemma {:induction false} LeBytesInjective(x: nat, y: nat, n: nat)
    requires x < Pow256(n) && y < Pow256(n) && LeBytes(x, n) == LeBytes(y, n)
    ensures x == y
    decreases n
  {
    if n > 0 {
      assert LeBytes(x, n)[0] == x % 256 && LeBytes(y, n)[0] == y % 256;
      assert LeBytes(x, n)[1..] == LeBytes(x / 256, n - 1);
      assert LeBytes(y, n)[1..] == LeBytes(y / 256, n - 1);
      LeBytesInjective(x / 256, y / 256, n - 1);
    }
  }

  lemma Widths()
    ensures Pow256(2) == 0x1_0000 && Pow256(4) == 0x1_0000_0000 && Pow256(8) == 0x1_0000_0000_0000_0000
  {
    assert Pow256(1) == 256 && Pow256(2) == 256 * 256;
    assert Pow256(3) == 256 * Pow256(2) && Pow256(4) == 256 * Pow256(3);
    assert Pow256(5) == 256 * Pow256(4) && Pow256(6) == 256 * Pow256(5);
    assert Pow256(7) == 256 * Pow256(6) && Pow256(8) == 256 * Pow256(7);
  }

  /** The lengths alone separate the kinds, and refreshes with and without an
      attempt number. */
  lemma KindsByLength(a: Ceremony, b: Ceremony)
    requires |Preimage(a)| == |Preimage(b)|
    ensures a.Dkg? <==> b.Dkg?
    ensures a.Refresh? <==> b.Refresh?
    ensures a.Repair? <==> b.Repair?
    ensures a.Refresh? && b.Refresh? ==> (a.attempt == 0 <==> b.attempt == 0)
    ensures a.Repair? && b.Repair? ==> |a.helpers| == |b.helpers|
    ensures !a.Repair? && !b.Repair? ==> |a.members| == |b.members|
  {
    hide Flat, LeBytes;
  }

  lemma DkgInjective(a: Ceremony, b: Ceremony)
    requires a.Dkg? && b.Dkg? && Preimage(a) == Preimage(b)
    ensures a == b
  {
    KindsByLength(a, b);
    Widths();
    hide Flat, LeBytes, Pow256;
    SplitEqual(Flat(a.members),
               LeBytes(a.threshold, 2) + (LeBytes(a.mintedWallMs, 8) + (LeBytes(a.mintedLogical, 4) + a.space)),
               Flat(b.members),
               LeBytes(b.threshold, 2) + (LeBytes(b.mintedWallMs, 8) + (LeBytes(b.mintedLogical, 4) + b.space)));
    SplitEqual(LeBytes(a.threshold, 2), LeBytes(a.mintedWallMs, 8) + (LeBytes(a.mintedLogical, 4) + a.space),
               LeBytes(b.threshold, 2), LeBytes(b.mintedWallMs, 8) + (LeBytes(b.mintedLogical, 4) + b.space));
    SplitEqual(LeBytes(a.mintedWallMs, 8), LeBytes(a.mintedLogical, 4) + a.space,
               LeBytes(b.mintedWallMs, 8), LeBytes(b.mintedLogical, 4) + b.space);
    SplitEqual(LeBytes(a.mintedLogical, 4), a.space, LeBytes(b.mintedLogical, 4), b.space);
    FlatInjective(a.members, b.members);
    LeBytesInjective(a.threshold, b.threshold, 2);
    LeBytesInjective(a.mintedWallMs, b.mintedWallMs, 8);
    LeBytesInjective(a.mintedLogical, b.mintedLogical, 4);
  }

  lemma RefreshInjective(a: Ceremony, b: Ceremony)
    requires a.Refresh? && b.Refresh? && Preimage(a) == Preimage(b)
    ensures a == b
  {
    KindsByLength(a, b);
    Widths();
    hide Flat, LeBytes, Pow256;
    var endA, endB := a.space + AttemptBytes(a.attempt), b.space + AttemptBytes(b.attempt);
    SplitEqual(Flat(a.members), LeBytes(a.proposedEpoch, 8) + (LeBytes(a.threshold, 2) + (REFRESH_TAG + endA)),
               Flat(b.members), LeBytes(b.proposedEpoch, 8) + (LeBytes(b.threshold, 2) + (REFRESH_TAG + endB)));
    SplitEqual(LeBytes(a.proposedEpoch, 8), LeBytes(a.threshold, 2) + (REFRESH_TAG + endA),
               LeBytes(b.proposedEpoch, 8), LeBytes(b.threshold, 2) + (REFRESH_TAG + endB));
    SplitEqual(LeBytes(a.threshold, 2), REFRESH_TAG + endA, LeBytes(b.threshold, 2), REFRESH_TAG + endB);
    SplitEqual(REFRESH_TAG, endA, REFRESH_TAG, endB);
    SplitEqual(a.space, AttemptBytes(a.attempt), b.space, AttemptBytes(b.attempt));
    FlatInjective(a.members, b.members);
    LeBytesInjective(a.proposedEpoch, b.proposedEpoch, 8);
    LeBytesInjective(a.threshold, b.threshold, 2);
    if a.attempt != 0 {
      LeBytesInjective(a.attempt, b.attempt, 4);
    }
  }

  lemma RepairInjective(a: Ceremony, b: Ceremony)
    requires a.Repair? && b.Repair? && Preimage(a) == Preimage(b)
    ensures a == b
  {
    KindsByLength(a, b);
    Widths();
    hide Flat, LeBytes, Pow256;
    var endA, endB := REPAIR_TAG + a.space, REPAIR_TAG + b.space;
    var midA := LeBytes(a.mintedWallMs, 8) + (LeBytes(a.mintedLogical, 4) + endA);
    var midB := LeBytes(b.mintedWallMs, 8) + (LeBytes(b.mintedLogical, 4) + endB);
    SplitEqual(a.participant, LeBytes(a.epoch, 8) + (Flat(a.helpers) + midA),
               b.participant, LeBytes(b.epoch, 8) + (Flat(b.helpers) + midB));
    SplitEqual(LeBytes(a.epoch, 8), Flat(a.helpers) + midA, LeBytes(b.epoch, 8), Flat(b.helpers) + midB);
    SplitEqual(Flat(a.helpers), midA, Flat(b.helpers), midB);
    SplitEqual(LeBytes(a.mintedWallMs, 8), LeBytes(a.mintedLogical, 4) + endA,
               LeBytes(b.mintedWallMs, 8), LeBytes(b.mintedLogical, 4) + endB);
    SplitEqual(LeBytes(a.mintedLogical, 4), endA, LeBytes(b.mintedLogical, 4), endB);
    SplitEqual(REPAIR_TAG, a.space, REPAIR_TAG, b.space);
    FlatInjective(a.helpers, b.helpers);
    LeBytesInjective(a.epoch, b.epoch, 8);
    LeBytesInjective(a.mintedWallMs, b.mintedWallMs, 8);
    LeBytesInjective(a.mintedLogical, b.mintedLogical, 4);
  }

  /** Two ceremonies share a preimage only if they are the same ceremony: same
      kind, same members in the same order, same numbers, same community. */
  lemma PreimageUnambiguous(a: Ceremony, b: Ceremony)
    ensures Preimage(a) == Preimage(b) <==> a == b
  {
    if Preimage(a) == Preimage(b) {
      KindsByLength(a, b);
      if a.Dkg? {
        DkgInjective(a, b);
      } else if a.Refresh? {
        RefreshInjective(a, b);
      } else {
        RepairInjective(a, b);
      }
    }
  }

  // ----- layout -----

  lemma {:induction false} LeValOfBytes(v: nat, n: nat)
    requires v < Pow256(n)
    ensures LeVal(LeBytes(v, n)) == v
    decreases n
  {
    if n > 0 {
      LeValOfBytes(v / 256, n - 1);
    }
  }

  lemma {:induction false} FlatAt(members: seq<Bytes16>, i: nat)
    requires i < |members|
    ensures Flat(members)[16 * i..16 * i + 16] == members[i]
  {
    var n := |members| - 1;
    var init := Flat(members[..n]);
    if i < n {
      FlatAt(members[..n], i);
      assert (init + members[n])[16 * i..16 * i + 16] == init[16 * i..16 * i + 16];
    } else {
      assert (init + members[n])[|init|..|init| + 16] == members[n];
    }
  }

  /** `part` stands in `s` at offset `at`. */
  predicate StandsAt(s: seq<byte>, at: nat, part: seq<byte>) {
    at + |part| <= |s| && s[at..at + |part|] == part
  }

  lemma SplitStands(s: seq<byte>, at: nat, a: seq<byte>, b: seq<byte>)
    requires StandsAt(s, at, a + b)
    ensures StandsAt(s, at, a) && StandsAt(s, at + |a|, b)
  {
    var part := s[at..at + |a + b|];
    assert part[..|a|] == a && part[|a|..] == b;
  }

  lemma PartsStand(s: seq<byte>, at: nat, a: seq<byte>, b: seq<byte>, c: seq<byte>, d: seq<byte>)
    requires StandsAt(s, at, a + (b + (c + d)))
    ensures StandsAt(s, at, a) && StandsAt(s, at + |a|, b) && StandsAt(s, at + |a| + |b|, c)
    ensures StandsAt(s, at + |a| + |b| + |c|, d)
  {
    hide StandsAt;
    SplitStands(s, at, a, b + (c + d));
    SplitStands(s, at + |a|, b, c + d);
    SplitStands(s, at + |a| + |b|, c, d);
  }

  /** The number `v` stands in `s` at `at`, in `width` bytes with the low byte first. */
  predicate NumberAt(s: seq<byte>, at: nat, width: nat, v: nat) {
    at + width <= |s| && LeVal(s[at..at + width]) == v
  }

  lemma NumberStands(s: seq<byte>, at: nat, width: nat, v: nat)
    requires StandsAt(s, at, LeBytes(v, width)) && v < Pow256(width)
    ensures NumberAt(s, at, width, v)
  {
    LeValOfBytes(v, width);
  }

  /** Member `i` stands at `at + 16 * i`. */
  predicate MembersAt(s: seq<byte>, at: nat, members: seq<Bytes16>) {
    forall i :: 0 <= i < |members| ==> StandsAt(s, at + 16 * i, members[i])
  }

  lemma FlatStands(s: seq<byte>, at: nat, members: seq<Bytes16>)
    requires StandsAt(s, at, Flat(members))
    ensures MembersAt(s, at, members)
  {
    hide StandsAt, Flat;
    forall i | 0 <= i < |members| ensures StandsAt(s, at + 16 * i, members[i]) {
      FlatAt(members, i);
      var flat := Flat(members);
      assert flat == flat[..16 * i] + (flat[16 * i..16 * i + 16] + flat[16 * i + 16..]);
      SplitStands(s, at, flat[..16 * i], flat[16 * i..16 * i + 16] + flat[16 * i + 16..]);
      SplitStands(s, at + 16 * i, flat[16 * i..16 * i + 16], flat[16 * i + 16..]);
    }
  }

  /** The ASCII `text` stands in `s` at `at`. */
  predicate TextAt(s: seq<byte>, at: nat, text: string) {
    at + |text| <= |s| && forall i :: 0 <= i < |text| ==> s[at + i] == text[i] as int
  }

  lemma TagStands(s: seq<byte>, at: nat)
    ensures StandsAt(s, at, REFRESH_TAG) ==> TextAt(s, at, "refresh-v1")
    ensures StandsAt(s, at, REPAIR_TAG) ==> TextAt(s, at, "repair-v1")
  {
    if StandsAt(s, at, REFRESH_TAG) {
      TextStands(s, at, REFRESH_TAG, "refresh-v1");
    }
    if StandsAt(s, at, REPAIR_TAG) {
      TextStands(s, at, REPAIR_TAG, "repair-v1");
    }
  }

  lemma TextStands(s: seq<byte>, at: nat, bytes: seq<byte>, text: string)
    requires StandsAt(s, at, bytes) && |bytes| == |text|
    requires forall i :: 0 <= i < |text| ==> bytes[i] == text[i] as int
    ensures TextAt(s, at, text)
  {
    forall i | 0 <= i < |text| ensures s[at + i] == text[i] as int {
      assert s[at..at + |bytes|][i] == bytes[i];
    }
  }

  /** The DKG preimage: the members, the threshold in two bytes, the wall time in
      eight, the logical time in four, the space. */
  lemma DkgLayout(members: seq<Bytes16>, threshold: u16, wall: u64, logical: u32, space: Bytes16)
    ensures var s, k := Preimage(Dkg(members, threshold, wall, logical, space)), 16 * |members|;
            && |s| == k + 30 && MembersAt(s, 0, members)
            && NumberAt(s, k, 2, threshold) && NumberAt(s, k + 2, 8, wall) && NumberAt(s, k + 10, 4, logical)
            && StandsAt(s, k + 14, space)
  {
    var s, k := Preimage(Dkg(members, threshold, wall, logical, space)), 16 * |members|;
    Widths();
    DkgParts(members, threshold, wall, logical, space);
    hide *;
    PartsStand(s, 0, Flat(members), LeBytes(threshold, 2), LeBytes(wall, 8), LeBytes(logical, 4) + space);
    FlatStands(s, 0, members);
    NumberStands(s, k, 2, threshold);
    NumberStands(s, k + 2, 8, wall);
    SplitStands(s, k + 10, LeBytes(logical, 4), space);
    NumberStands(s, k + 10, 4, logical);
  }

  lemma DkgParts(members: seq<Bytes16>, threshold: u16, wall: u64, logical: u32, space: Bytes16)
    ensures var s := Preimage(Dkg(members, threshold, wall, logical, space));
            var end := LeBytes(logical, 4) + space;
            && |s| == 16 * |members| + 30
            && StandsAt(s, 0, Flat(members) + (LeBytes(threshold, 2) + (LeBytes(wall, 8) + end)))
  {
    hide Flat, LeBytes;
  }

  /** The refresh preimage: the members, the epoch in eight bytes, the threshold in
      two, "refresh-v1", the space, and for a retry its number in four. */
  lemma RefreshLayout(members: seq<Bytes16>, threshold: u16, epoch: u64, attempt: u32, space: Bytes16)
    ensures var s, k := Preimage(Refresh(members, threshold, epoch, attempt, space)), 16 * |members|;
            && |s| == k + (if attempt == 0 then 36 else 40) && MembersAt(s, 0, members)
            && NumberAt(s, k, 8, epoch) && NumberAt(s, k + 8, 2, threshold) && TextAt(s, k + 10, "refresh-v1")
            && StandsAt(s, k + 20, space) && (attempt != 0 ==> NumberAt(s, k + 36, 4, attempt))
  {
    var s, k := Preimage(Refresh(members, threshold, epoch, attempt, space)), 16 * |members|;
    var tail := space + AttemptBytes(attempt);
    Widths();
    RefreshParts(members, threshold, epoch, attempt, space);
    hide *;
    PartsStand(s, 0, Flat(members), LeBytes(epoch, 8), LeBytes(threshold, 2), REFRESH_TAG + tail);
    FlatStands(s, 0, members);
    NumberStands(s, k, 8, epoch);
    NumberStands(s, k + 8, 2, threshold);
    SplitStands(s, k + 10, REFRESH_TAG, tail);
    TagStands(s, k + 10);
    SplitStands(s, k + 20, space, AttemptBytes(attempt));
    if attempt != 0 {
      AttemptStands(s, k + 36, attempt);
    }
  }

  lemma RefreshParts(members: seq<Bytes16>, threshold: u16, epoch: u64, attempt: u32, space: Bytes16)
    ensures var s := Preimage(Refresh(members, threshold, epoch, attempt, space));
            var tail := REFRESH_TAG + (space + AttemptBytes(attempt));
            && |s| == 16 * |members| + (if attempt == 0 then 36 else 40)
            && StandsAt(s, 0, Flat(members) + (LeBytes(epoch, 8) + (LeBytes(threshold, 2) + tail)))
    ensures |REFRESH_TAG| == 10
  {
    hide Flat, LeBytes;
  }

  lemma AttemptStands(s: seq<byte>, at: nat, attempt: u32)
    requires attempt != 0 && StandsAt(s, at, AttemptBytes(attempt))
    ensures NumberAt(s, at, 4, attempt)
  {
    Widths();
    NumberStands(s, at, 4, attempt);
  }

  /** The repair preimage: the participant, the epoch in eight bytes, the helpers, the
      wall time in eight, the logical time in four, "repair-v1", the space. */
  lemma RepairLayout(participant: Bytes16, epoch: u64, helpers: seq<Bytes16>, wall: u64, logical: u32, space: Bytes16)
    ensures var s := Preimage(Repair(participant, epoch, helpers, wall, logical, space));
            var k := 24 + 16 * |helpers|;
            && |s| == k + 37 && StandsAt(s, 0, participant) && NumberAt(s, 16, 8, epoch) && MembersAt(s, 24, helpers)
            && NumberAt(s, k, 8, wall) && NumberAt(s, k + 8, 4, logical) && TextAt(s, k + 12, "repair-v1")
            && StandsAt(s, k + 21, space)
  {
    var s := Preimage(Repair(participant, epoch, helpers, wall, logical, space));
    var k := 24 + 16 * |helpers|;
    hide *;
    RepairParts(participant, epoch, helpers, wall, logical, space);
    RepairFront(s, participant, epoch, helpers, LeBytes(wall, 8) + (LeBytes(logical, 4) + (REPAIR_TAG + space)));
    StampStands(s, k, wall, logical, space);
  }

  lemma RepairFront(s: seq<byte>, participant: Bytes16, epoch: u64, helpers: seq<Bytes16>, stamp: seq<byte>)
    requires StandsAt(s, 0, participant + (LeBytes(epoch, 8) + (Flat(helpers) + stamp)))
    ensures StandsAt(s, 0, participant) && NumberAt(s, 16, 8, epoch) && MembersAt(s, 24, helpers)
    ensures StandsAt(s, 24 + 16 * |helpers|, stamp)
  {
    Widths();
    hide *;
    PartsStand(s, 0, participant, LeBytes(epoch, 8), Flat(helpers), stamp);
    NumberStands(s, 16, 8, epoch);
    FlatStands(s, 24, helpers);
  }

  lemma StampStands(s: seq<byte>, k: nat, wall: u64, logical: u32, space: Bytes16)
    requires StandsAt(s, k, LeBytes(wall, 8) + (LeBytes(logical, 4) + (REPAIR_TAG + space)))
    ensures NumberAt(s, k, 8, wall) && NumberAt(s, k + 8, 4, logical) && TextAt(s, k + 12, "repair-v1")
    ensures StandsAt(s, k + 21, space)
  {
    Widths();
    assert |REPAIR_TAG| == 9;
    hide *;
    PartsStand(s, k, LeBytes(wall, 8), LeBytes(logical, 4), REPAIR_TAG, space);
    NumberStands(s, k, 8, wall);
    NumberStands(s, k + 8, 4, logical);
    TagStands(s, k + 12);
  }

  lemma RepairParts(participant: Bytes16, epoch: u64, helpers: seq<Bytes16>, wall: u64, logical: u32, space: Bytes16)
    ensures var s := Preimage(Repair(participant, epoch, helpers, wall, logical, space));
            var stamp := LeBytes(wall, 8) + (LeBytes(logical, 4) + (REPAIR_TAG + space));
            && |s| == 16 * |helpers| + 61
            && StandsAt(s, 0, participant + (LeBytes(epoch, 8) + (Flat(helpers) + stamp)))
    ensures |REPAIR_TAG| == 9
  {
    hide Flat, LeBytes;
  }
}
