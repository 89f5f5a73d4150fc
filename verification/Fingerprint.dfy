/** Count-folded modular-sum fingerprints of sets of element hashes
    (`src-tauri/src/channel_rbsr.rs`), down to their byte arithmetic. */
module Fingerprint {
  import opened Prelude

  // ----- little-endian integers -----

  function Pow256(n: nat): (p: nat)
    ensures p > 0
  {
    if n == 0 then 1 else 256 * Pow256(n - 1)
  }

  /** The integer a little-endian byte string denotes. */
  function LeVal(s: seq<byte>): nat {
    if s == [] then 0 else s[0] + 256 * LeVal(s[1..])
  }

  /** The low `n` bytes of `v`, little-endian. */
  function LeBytes(v: nat, n: nat): (s: seq<byte>)
    ensures |s| == n
  {
    if n == 0 then [] else [v % 256] + LeBytes(v / 256, n - 1)
  }

  lemma {:induction false} LeValBound(s: seq<byte>)
    ensures LeVal(s) < Pow256(|s|)
  {
    if s != [] {
      LeValBound(s[1..]);
    }
  }

  // ----- add_mod_256 -----

  /** Byte-wise addition of equally long strings with an incoming carry; the
      carry out of the top byte is dropped. */
  function RippleAdd(a: seq<byte>, b: seq<byte>, carry: nat): (s: seq<byte>)
    requires |a| == |b|
    ensures |s| == |a|
  {
    if a == [] then []
    else
      var t := a[0] + b[0] + carry;
      [t % 256] + RippleAdd(a[1..], b[1..], t / 256)
  }

  lemma MulAssociates(a: int, b: int, c: int)
    ensures a * (b * c) == b * (a * c)
  {
  }

  /** The ripple-carry sum is exact up to a multiple of 256^n. */
  lemma {:induction false} RippleAddExact(a: seq<byte>, b: seq<byte>, carry: nat) returns (k: nat)
    requires |a| == |b|
    ensures LeVal(RippleAdd(a, b, carry)) + k * Pow256(|a|) == LeVal(a) + LeVal(b) + carry
  {
    if a == [] {
      k := carry;
    } else {
      var t := a[0] + b[0] + carry;
      k := RippleAddExact(a[1..], b[1..], t / 256);
      var r := RippleAdd(a[1..], b[1..], t / 256);
      assert RippleAdd(a, b, carry)[1..] == r;
      MulAssociates(k, 256, Pow256(|a| - 1));
    }
  }

  lemma MulDistributes(a: int, b: int, m: int)
    ensures (a + b) * m == a * m + b * m
    ensures (a - b) * m == a * m - b * m
  {
  }

  lemma {:induction false} MulAtLeast(x: nat, m: nat)
    requires x >= 1
    ensures x * m >= m
  {
    if x > 1 {
      MulAtLeast(x - 1, m);
      MulDistributes(x - 1, 1, m);
    }
  }

  lemma DivisionUnique(q: nat, r: nat, q': nat, r': nat, m: nat)
    requires r < m && r' < m && q * m + r == q' * m + r'
    ensures q == q' && r == r'
  {
    MulDistributes(q, q', m);
    MulDistributes(q', q, m);
    if q > q' {
      MulAtLeast(q - q', m);
    } else if q < q' {
      MulAtLeast(q' - q, m);
    }
  }

  lemma DivModIdentity(v: nat, m: nat)
    requires m > 0
    ensures v / m >= 0 && 0 <= v % m < m && v == (v / m) * m + v % m
  {
  }

  /** `sum` denotes `a + b` modulo 256 to the number of bytes. */
  predicate IsModularSum(sum: seq<byte>, a: seq<byte>, b: seq<byte>) {
    LeVal(sum) == (LeVal(a) + LeVal(b)) % Pow256(|sum|)
  }

  /** `add_mod_256` computes the sum modulo 256^n, as its documentation promises. */
  lemma RippleAddIsModular(a: seq<byte>, b: seq<byte>)
    requires |a| == |b|
    ensures IsModularSum(RippleAdd(a, b, 0), a, b)
  {
    var k := RippleAddExact(a, b, 0);
    var r, v, m := LeVal(RippleAdd(a, b, 0)), LeVal(a) + LeVal(b), Pow256(|a|);
    LeValBound(RippleAdd(a, b, 0));
    DivModIdentity(v, m);
    DivisionUnique(k, r, v / m, v % m, m);
  }

  lemma {:induction false} RippleAddCommutes(a: seq<byte>, b: seq<byte>, carry: nat)
    requires |a| == |b|
    ensures RippleAdd(a, b, carry) == RippleAdd(b, a, carry)
  {
    if a != [] {
      RippleAddCommutes(a[1..], b[1..], (a[0] + b[0] + carry) / 256);
    }
  }

  /** One byte of the two groupings: the same digit `e` and the same total carry. */
  lemma CarriesAgree(x: byte, y: byte, z: byte, p: nat, q: nat, r: nat, s: nat)
    returns (d1: byte, c1: nat, d2: byte, c2: nat, e: byte, k1: nat, k2: nat)
    requires p + q == r + s
    ensures x + y + p == d1 + 256 * c1 && d1 + z + q == e + 256 * k1
    ensures y + z + r == d2 + 256 * c2 && x + d2 + s == e + 256 * k2
    ensures c1 + k1 == c2 + k2
  {
    d1, c1 := (x + y + p) % 256, (x + y + p) / 256;
    d2, c2 := (y + z + r) % 256, (y + z + r) / 256;
    e, k1, k2 := (d1 + z + q) % 256, (d1 + z + q) / 256, (x + d2 + s) / 256;
  }

  lemma RippleAddCons(x: byte, a: seq<byte>, y: byte, b: seq<byte>, carry: nat, digit: byte, out: nat)
    requires |a| == |b| && x + y + carry == digit + 256 * out
    ensures RippleAdd([x] + a, [y] + b, carry) == [digit] + RippleAdd(a, b, out)
  {
    assert ([x] + a)[1..] == a && ([y] + b)[1..] == b;
  }

  /** Associativity, with the carries that the two groupings thread differently. */
  lemma {:induction false} RippleAddAssociates(a: seq<byte>, b: seq<byte>, c: seq<byte>,
                                               p: nat, q: nat, r: nat, s: nat)
    requires |a| == |b| == |c| && p + q == r + s
    ensures RippleAdd(RippleAdd(a, b, p), c, q) == RippleAdd(a, RippleAdd(b, c, r), s)
  {
    if a != [] {
      var x, y, z, a', b', c' := a[0], b[0], c[0], a[1..], b[1..], c[1..];
      assert a == [x] + a' && b == [y] + b' && c == [z] + c';
      var d1, c1, d2, c2, e, k1, k2 := CarriesAgree(x, y, z, p, q, r, s);
      hide RippleAdd;
      RippleAddCons(x, a', y, b', p, d1, c1);
      RippleAddCons(y, b', z, c', r, d2, c2);
      RippleAddCons(d1, RippleAdd(a', b', c1), z, c', q, e, k1);
      RippleAddCons(x, a', d2, RippleAdd(b', c', c2), s, e, k2);
      RippleAddAssociates(a', b', c', c1, k1, c2, k2);
    }
  }

  /** The carry that reaches byte `k`. */
  function CarryInto(a: seq<byte>, b: seq<byte>, carry: nat, k: nat): nat
    requires k <= |a| == |b|
  {
    if k == 0 then carry else CarryInto(a[1..], b[1..], (a[0] + b[0] + carry) / 256, k - 1)
  }

  lemma {:induction false} CarryStep(a: seq<byte>, b: seq<byte>, carry: nat, k: nat)
    requires k < |a| == |b|
    ensures CarryInto(a, b, carry, k + 1) == (a[k] + b[k] + CarryInto(a, b, carry, k)) / 256
  {
    if k > 0 {
      CarryStep(a[1..], b[1..], (a[0] + b[0] + carry) / 256, k - 1);
    }
  }

  lemma {:induction false} RippleAddByte(a: seq<byte>, b: seq<byte>, carry: nat, k: nat)
    requires k < |a| == |b|
    ensures RippleAdd(a, b, carry)[k] == (a[k] + b[k] + CarryInto(a, b, carry, k)) % 256
  {
    if k > 0 {
      RippleAddByte(a[1..], b[1..], (a[0] + b[0] + carry) / 256, k - 1);
    }
  }

  lemma RippleStep(a: seq<byte>, b: seq<byte>, carry: nat, k: nat)
    requires k < |a| == |b| && carry <= 1 && carry == CarryInto(a, b, 0, k)
    ensures var s := a[k] + b[k] + carry;
            RippleAdd(a, b, 0)[k] == s % 256 && CarryInto(a, b, 0, k + 1) == s / 256 && s / 256 <= 1
  {
    CarryStep(a, b, 0, k);
    RippleAddByte(a, b, 0, k);
    hide RippleAdd, CarryInto;
  }

  /** The loop over the two 32-byte buffers, in place on `acc`. */
  method AddMod256InPlace(acc: array<byte>, add: array<byte>)
    requires acc != add && acc.Length == 32 && add.Length == 32
    modifies acc
    ensures acc[..] == RippleAdd(old(acc[..]), add[..], 0)
    ensures IsModularSum(acc[..], old(acc[..]), add[..])
  {
    ghost var a, b := acc[..], add[..];
    ghost var sum := RippleAdd(a, b, 0);
    RippleAddIsModular(a, b);
    hide RippleAdd, CarryInto, IsModularSum;
    CarryStart(a, b);
    var carry: u16 := 0;
    for i := 0 to acc.Length
      invariant carry <= 1 && carry == CarryInto(a, b, 0, i)
      invariant forall k :: 0 <= k < i ==> acc[k] == sum[k]
      invariant forall k :: i <= k < acc.Length ==> acc[k] == a[k]
    {
      RippleStep(a, b, carry, i);
      var s: u16 := acc[i] + add[i] + carry;
      acc[i] := s % 256;
      carry := s / 256;
    }
    assert acc[..] == sum;
  }

  lemma CarryStart(a: seq<byte>, b: seq<byte>)
    requires |a| == |b|
    ensures CarryInto(a, b, 0, 0) == 0
  {
  }

  // ----- LEB128 -----

  /** Unsigned LEB128 (section 7.6 of DWARF Version 5). */
  function Leb128(n: nat): (s: seq<byte>)
    ensures |s| > 0
  {
    if n < 128 then [n] else [n % 128 + 128] + Leb128(n / 128)
  }

  /** The encoding loop: low seven bits first, a continuation bit on all but the last byte. */
  method EncodeLeb128(count: u64) returns (out: seq<byte>)
    ensures out == Leb128(count)
  {
    out := [];
    var n: u64 := count;
    while true
      invariant out + Leb128(n) == Leb128(count)
      decreases n
    {
      var b := n % 128;
      ghost var before := n;
      n := n / 128;
      if n == 0 {
        out := out + [b];
        break;
      } else {
        assert Leb128(before) == [b + 128] + Leb128(n);
        assert out + ([b + 128] + Leb128(n)) == (out + [b + 128]) + Leb128(n);
        out := out + [b + 128];
      }
    }
  }

  /** Reads one LEB128 number off the front of `s`. */
  function DecodeLeb128(s: seq<byte>): Option<(nat, seq<byte>)> {
    if s == [] then None
    else if s[0] < 128 then Some((s[0], s[1..]))
    else match DecodeLeb128(s[1..])
         case None => None
         case Some((n, rest)) => Some((s[0] - 128 + 128 * n, rest))
  }

  /** Decoding returns the number and leaves whatever followed it. */
  lemma {:induction false} Leb128RoundTrip(n: nat, rest: seq<byte>)
    ensures DecodeLeb128(Leb128(n) + rest) == Some((n, rest))
  {
    var s := Leb128(n) + rest;
    if n < 128 {
      assert s[1..] == rest;
    } else {
      Leb128RoundTrip(n / 128, rest);
      assert s[1..] == Leb128(n / 128) + rest;
    }
  }

  /** All bytes but the last carry the continuation bit, and the last is not a
      padding zero: the encoding is the shortest one. */
  predicate Leb128Canonical(s: seq<byte>) {
    && s != []
    && (forall i :: 0 <= i < |s| - 1 ==> s[i] >= 128)
    && s[|s| - 1] < 128
    && (|s| > 1 ==> s[|s| - 1] != 0)
  }

  lemma {:induction false} Leb128IsCanonical(n: nat)
    ensures Leb128Canonical(Leb128(n))
    ensures n > 0 ==> Leb128(n)[|Leb128(n)| - 1] != 0
  {
    if n >= 128 {
      Leb128IsCanonical(n / 128);
      var rest := Leb128(n / 128);
      assert forall i :: 0 < i < |Leb128(n)| ==> Leb128(n)[i] == rest[i - 1];
    }
  }

  // ----- RangeFingerprint -----

  datatype RangeFingerprint = RangeFingerprint(rawSum: Bytes32, count: nat)

  const ZERO: RangeFingerprint := RangeFingerprint(LeBytes(0, 32), 0)

  function Fold(f: RangeFingerprint, elementHash: Bytes32): RangeFingerprint {
    RangeFingerprint(RippleAdd(f.rawSum, elementHash, 0), f.count + 1)
  }

  function Combine(f: RangeFingerprint, g: RangeFingerprint): RangeFingerprint {
    RangeFingerprint(RippleAdd(f.rawSum, g.rawSum, 0), f.count + g.count)
  }

  /** The fingerprint of a list of element hashes, folded left to right from zero. */
  function FoldAll(hashes: seq<Bytes32>): RangeFingerprint {
    if hashes == [] then ZERO else Fold(FoldAll(hashes[..|hashes| - 1]), hashes[|hashes| - 1])
  }

  lemma CombineCommutes(f: RangeFingerprint, g: RangeFingerprint)
    ensures Combine(f, g) == Combine(g, f)
  {
    RippleAddCommutes(f.rawSum, g.rawSum, 0);
  }

  lemma CombineAssociates(f: RangeFingerprint, g: RangeFingerprint, h: RangeFingerprint)
    ensures Combine(Combine(f, g), h) == Combine(f, Combine(g, h))
  {
    RippleAddAssociates(f.rawSum, g.rawSum, h.rawSum, 0, 0, 0, 0);
  }

  lemma {:induction false} RippleAddZeros(a: seq<byte>)
    ensures RippleAdd(LeBytes(0, |a|), a, 0) == a
  {
    if a != [] {
      RippleAddZeros(a[1..]);
      assert LeBytes(0, |a|)[1..] == LeBytes(0, |a| - 1);
    }
  }

  lemma CombineZero(f: RangeFingerprint)
    ensures Combine(ZERO, f) == f == Combine(f, ZERO)
  {
    RippleAddZeros(f.rawSum);
    CombineCommutes(ZERO, f);
  }

  /** Folding one element in is combining with the fingerprint of that element alone. */
  lemma FoldIsCombine(f: RangeFingerprint, h: Bytes32)
    ensures FoldAll([h]) == RangeFingerprint(h, 1)
    ensures Fold(f, h) == Combine(f, FoldAll([h]))
  {
    assert [h][..0] == [];
    assert FoldAll([h]) == Fold(ZERO, h);
    CombineZero(RangeFingerprint(h, 1));
  }

  /** A range's fingerprint is the combination of the fingerprints of any split. */
  lemma {:induction false} FoldAllSplits(a: seq<Bytes32>, b: seq<Bytes32>)
    ensures FoldAll(a + b) == Combine(FoldAll(a), FoldAll(b))
  {
    if b == [] {
      CombineZero(FoldAll(a));
      assert a + b == a;
    } else {
      var init, h := b[..|b| - 1], b[|b| - 1];
      FoldAllSplits(a, init);
      assert (a + b)[..|a + b| - 1] == a + init;
      FoldIsCombine(FoldAll(a + init), h);
      FoldIsCombine(FoldAll(init), h);
      CombineAssociates(FoldAll(a), FoldAll(init), FoldAll([h]));
    }
  }

  lemma {:induction false} FoldAllCounts(a: seq<Bytes32>)
    ensures FoldAll(a).count == |a|
  {
    if a != [] {
      FoldAllCounts(a[..|a| - 1]);
    }
  }

  /** The exact sum of the integers that the hashes denote. */
  function HashSum(hashes: seq<Bytes32>): nat {
    if hashes == [] then 0 else HashSum(hashes[..|hashes| - 1]) + LeVal(hashes[|hashes| - 1])
  }

  lemma {:induction false} LeValZeros(n: nat)
    ensures LeVal(LeBytes(0, n)) == 0
  {
    if n > 0 {
      LeValZeros(n - 1);
    }
  }

  lemma ModAdds(a: nat, b: nat, m: nat)
    requires m > 0
    ensures (a % m + b) % m == (a + b) % m
  {
    DivModIdentity(a, m);
    DivModIdentity(a % m + b, m);
    DivModIdentity(a + b, m);
    var q := (a % m + b) / m + a / m;
    MulDistributes((a % m + b) / m, a / m, m);
    DivisionUnique(q, (a % m + b) % m, (a + b) / m, (a + b) % m, m);
  }

  /** `raw_sum` denotes the sum of the folded hashes modulo 2^256. */
  lemma {:induction false} FoldAllSums(hashes: seq<Bytes32>)
    ensures LeVal(FoldAll(hashes).rawSum) == HashSum(hashes) % Pow256(32)
  {
    hide *;
    HashSumStep(hashes);
    FoldAllStep(hashes);
    if hashes == [] {
      LeValZeros(32);
      ZeroMod(Pow256(32));
    } else {
      var n := |hashes| - 1;
      var sum, h := FoldAll(hashes[..n]).rawSum, hashes[n];
      FoldAllSums(hashes[..n]);
      RippleAddIsModular(sum, h);
      ModularSumIs(RippleAdd(sum, h, 0), sum, h);
      ModAdds(HashSum(hashes[..n]), LeVal(h), Pow256(32));
    }
  }

  lemma ZeroMod(m: nat)
    requires m > 0
    ensures 0 % m == 0
  {
  }

  lemma FoldAllStep(hashes: seq<Bytes32>)
    ensures hashes == [] ==> FoldAll(hashes).rawSum == LeBytes(0, 32)
    ensures hashes != [] ==>
              var n := |hashes| - 1;
              FoldAll(hashes).rawSum == RippleAdd(FoldAll(hashes[..n]).rawSum, hashes[n], 0)
  {
    hide RippleAdd, LeBytes;
  }

  lemma ModularSumIs(sum: Bytes32, a: seq<byte>, b: seq<byte>)
    requires IsModularSum(sum, a, b)
    ensures LeVal(sum) == (LeVal(a) + LeVal(b)) % Pow256(32)
  {
    hide LeVal, Pow256;
    assert |sum| == 32;
  }

  lemma HashSumStep(hashes: seq<Bytes32>)
    ensures hashes == [] ==> HashSum(hashes) == 0
    ensures hashes != [] ==> var n := |hashes| - 1; HashSum(hashes) == HashSum(hashes[..n]) + LeVal(hashes[n])
  {
  }

  // ----- finalize -----

  /** The bytes that `finalize` hashes. */
  function Preimage(f: RangeFingerprint): seq<byte> {
    f.rawSum + Leb128(f.count)
  }

  /** `finalize`: the first 16 bytes of the hash; `sha` stands for SHA-256. */
  function Finalize(sha: seq<byte> -> Bytes32, f: RangeFingerprint): Bytes16 {
    sha(Preimage(f))[..16]
  }

  /** What is hashed for a list of element hashes: 32 bytes that denote their sum
      modulo 2^256, then the shortest LEB128 encoding of their number. */
  predicate Summarises(pre: seq<byte>, hashes: seq<Bytes32>) {
    && |pre| > 32
    && LeVal(pre[..32]) == HashSum(hashes) % Pow256(32)
    && Leb128Canonical(pre[32..]) && DecodeLeb128(pre[32..]) == Some((|hashes|, []))
  }

  /** A digest of a list of element hashes: the first 16 bytes of the hash of their
      summary. */
  ghost predicate IsDigest(sha: seq<byte> -> Bytes32, hashes: seq<Bytes32>, digest: Bytes16) {
    exists pre :: Summarises(pre, hashes) && digest == sha(pre)[..16]
  }

  lemma PreimageSummarises(hashes: seq<Bytes32>)
    ensures Summarises(Preimage(FoldAll(hashes)), hashes)
  {
    hide HashSum, LeVal, Pow256, Leb128, FoldAll, DecodeLeb128, Leb128Canonical;
    var f := FoldAll(hashes);
    FoldAllSums(hashes);
    FoldAllCounts(hashes);
    Leb128IsCanonical(f.count);
    Leb128RoundTrip(f.count, []);
    assert Leb128(f.count) + [] == Leb128(f.count);
    assert Preimage(f)[..32] == f.rawSum && Preimage(f)[32..] == Leb128(f.count);
  }

  lemma FinalizeIsDigest(sha: seq<byte> -> Bytes32, hashes: seq<Bytes32>)
    ensures IsDigest(sha, hashes, Finalize(sha, FoldAll(hashes)))
  {
    PreimageSummarises(hashes);
    hide Summarises, Preimage, FoldAll;
    var pre := Preimage(FoldAll(hashes));
    assert Summarises(pre, hashes);
  }

  /** Distinct fingerprints hash distinct bytes, so only the hash can collide. */
  lemma PreimageInjective(f: RangeFingerprint, g: RangeFingerprint)
    requires Preimage(f) == Preimage(g)
    ensures f == g
  {
    assert f.rawSum == Preimage(f)[..32] && g.rawSum == Preimage(g)[..32];
    assert Leb128(f.count) == Preimage(f)[32..] && Leb128(g.count) == Preimage(g)[32..];
    Leb128RoundTrip(f.count, []);
    Leb128RoundTrip(g.count, []);
    assert Leb128(f.count) + [] == Leb128(g.count) + [];
  }
}
