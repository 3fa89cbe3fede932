// The content-defined chunker and the transfer index (src/release/chunks.ts). SHA-256 is a parameter; the gear table
// is any table of 256 64-bit values, held as two tables of 32-bit halves.
module Chunks {
  import opened Bytes

  const MIN_CHUNK := 4096
  const MAX_CHUNK := 65536

  type u32 = x: int | 0 <= x < U32_LIMIT

  predicate IsHex(s: seq<byte>) {
    forall i | 0 <= i < |s| :: 0x30 <= s[i] <= 0x39 || 0x61 <= s[i] <= 0x66
  }

  // A SHA-256 digest as 64 lowercase hex digits.
  type Digest = s: seq<byte> | |s| == 64 && IsHex(s) witness seq<byte>(64, i => 0x30)

  datatype Gear = Gear(hi: seq<u32>, lo: seq<u32>) {
    ghost predicate Valid() {
      |hi| == 256 && |lo| == 256
    }

    function At(b: byte): nat
      requires Valid()
    {
      hi[b] * U32_LIMIT + lo[b]
    }
  }

  datatype Chunk = Chunk(sha256: Digest, length: nat)

  /* -------- The chunks, from the rolling hash -------- */

  // hash = (hash << 1) + GEAR[b] mod 2^64, over the bytes of a chunk.
  function Hash(g: Gear, s: seq<byte>): (h: nat)
    requires g.Valid()
    ensures h < U64_LIMIT
  {
    if s == [] then 0 else (2 * Hash(g, s[..|s| - 1]) + g.At(s[|s| - 1])) % U64_LIMIT
  }

  // The top fourteen of the 64 bits are zero.
  predicate HashCuts(g: Gear, chunk: seq<byte>)
    requires g.Valid()
  {
    Hash(g, chunk) < 0x4_0000_0000_0000
  }

  predicate Cuts(g: Gear, chunk: seq<byte>)
    requires g.Valid()
  {
    (|chunk| >= MIN_CHUNK && HashCuts(g, chunk)) || |chunk| == MAX_CHUNK
  }

  // The length of the first chunk of s, looking from length n on; |s| where no cut is left.
  function FirstCut(g: Gear, s: seq<byte>, n: nat): (c: nat)
    requires g.Valid() && 0 < n <= |s| && n <= MAX_CHUNK
    ensures n <= c <= |s| && c <= MAX_CHUNK
    ensures Cuts(g, s[..c]) || c == |s|
    ensures forall k | n <= k < c :: !Cuts(g, s[..k])
    decreases |s| - n
  {
    if Cuts(g, s[..n]) || n == |s| then n else FirstCut(g, s, n + 1)
  }

  // The chunks a buffer is cut into.
  function Pieces(g: Gear, s: seq<byte>): seq<seq<byte>>
    requires g.Valid()
  {
    if s == [] then [] else
      var n := FirstCut(g, s, 1);
      [s[..n]] + Pieces(g, s[n..])
  }

  function Flatten(p: seq<seq<byte>>): seq<byte> {
    if p == [] then [] else p[0] + Flatten(p[1..])
  }

  function Describe(h: seq<byte> -> Digest, p: seq<seq<byte>>): (c: seq<Chunk>)
    ensures |c| == |p|
    ensures forall i | 0 <= i < |p| :: c[i] == Chunk(h(p[i]), |p[i]|)
  {
    seq(|p|, i requires 0 <= i < |p| => Chunk(h(p[i]), |p[i]|))
  }

  // The chunks partition their input, each 4096 to 65536 bytes long but the last, which is at most 65536 bytes long
  // and not empty; and every chunk but the last ends where the rule cuts and at no earlier place.
  lemma {:induction false} PiecesPartition(g: Gear, s: seq<byte>)
    requires g.Valid()
    ensures var p := Pieces(g, s);
            && Flatten(p) == s
            && (forall i | 0 <= i < |p| :: 0 < |p[i]| <= 65536)
            && (forall i | 0 <= i < |p| - 1 :: 4096 <= |p[i]| && Cuts(g, p[i]))
            && (forall i, k | 0 <= i < |p| && 0 < k < |p[i]| :: !Cuts(g, p[i][..k]))
  {
    if s != [] {
      var n := FirstCut(g, s, 1);
      var p, rest := Pieces(g, s), Pieces(g, s[n..]);
      PiecesPartition(g, s[n..]);
      assert p[1..] == rest;
      assert s == s[..n] + s[n..];
      forall i, k | 0 <= i < |p| && 0 < k < |p[i]| ensures !Cuts(g, p[i][..k]) {
        if i == 0 {
          assert s[..n][..k] == s[..k];
        } else {
          assert p[i] == rest[i - 1];
        }
      }
      forall i | 0 <= i < |p| - 1 ensures MIN_CHUNK <= |p[i]| && Cuts(g, p[i]) {
        if i > 0 {
          assert p[i] == rest[i - 1];
        } else {
          assert n < |s|;
        }
      }
    }
  }

  /* -------- The loop over two 32-bit halves -------- */

  // JavaScript's (x << 1) on an unsigned 32-bit number: a signed 32-bit result.
  function ShiftedSigned(x: u32): (r: int)
    ensures -0x8000_0000 <= r < 0x8000_0000
    ensures r % U32_LIMIT == 2 * x % U32_LIMIT
  {
    var d := 2 * x % U32_LIMIT;
    if d >= 0x8000_0000 then d - U32_LIMIT else d
  }

  // JavaScript's x >>> 0.
  function Unsigned(x: int): u32 {
    x % U32_LIMIT
  }

  // One step of the loop on both halves; the carry out of the low half moves into the high half.
  function Step(g: Gear, hi: u32, lo: u32, b: byte): (u32, u32)
    requires g.Valid()
  {
    var shifted := Unsigned(ShiftedSigned(lo));
    var sum := shifted + g.lo[b];
    (Unsigned(ShiftedSigned(hi) + lo / 0x8000_0000 + g.hi[b] + (if sum > 0xFFFF_FFFF then 1 else 0)), Unsigned(sum))
  }

  lemma HalvesArithmetic(hi: int, lo: int, gh: int, gl: int)
    requires 0 <= hi < U32_LIMIT && 0 <= lo < U32_LIMIT && 0 <= gh < U32_LIMIT && 0 <= gl < U32_LIMIT
    ensures var sum := 2 * lo % U32_LIMIT + gl;
            var h := (2 * hi + lo / 0x8000_0000 + gh + (if sum > 0xFFFF_FFFF then 1 else 0)) % U32_LIMIT;
            h * U32_LIMIT + sum % U32_LIMIT == (2 * (hi * U32_LIMIT + lo) + gh * U32_LIMIT + gl) % U64_LIMIT
  {
    var top := lo / 0x8000_0000;
    assert 2 * lo % U32_LIMIT == 2 * lo - top * U32_LIMIT;
    var sum := 2 * lo - top * U32_LIMIT + gl;
    var carry := if sum > 0xFFFF_FFFF then 1 else 0;
    assert sum % U32_LIMIT == sum - carry * U32_LIMIT;
    var high := 2 * hi + top + gh + carry;
    var q := high / U32_LIMIT;
    assert high % U32_LIMIT == high - q * U32_LIMIT;
    assert (high - q * U32_LIMIT) * U32_LIMIT + sum - carry * U32_LIMIT
        == 2 * (hi * U32_LIMIT + lo) + gh * U32_LIMIT + gl - q * U64_LIMIT;
    WholeMultiples((high - q * U32_LIMIT) * U32_LIMIT + sum - carry * U32_LIMIT, q);
  }

  lemma WholeMultiples(r: int, q: int)
    requires 0 <= r < U64_LIMIT
    ensures (r + q * U64_LIMIT) % U64_LIMIT == r
  {
  }

  // The halves carry the 64-bit hash: one step doubles it and adds the gear of the byte, modulo 2^64.
  lemma StepIsTheHash(g: Gear, hi: u32, lo: u32, b: byte)
    requires g.Valid()
    ensures var (h, l) := Step(g, hi, lo, b);
            h * U32_LIMIT + l == (2 * (hi * U32_LIMIT + lo) + g.At(b)) % U64_LIMIT
  {
    HalvesArithmetic(hi, lo, g.hi[b], g.lo[b]);
    var rest := lo / 0x8000_0000 + g.hi[b] + (if Unsigned(ShiftedSigned(lo)) + g.lo[b] > 0xFFFF_FFFF then 1 else 0);
    Congruent(ShiftedSigned(hi), 2 * hi, rest);
  }

  lemma Congruent(a: int, b: int, c: int)
    requires a % U32_LIMIT == b % U32_LIMIT
    ensures (a + c) % U32_LIMIT == (b + c) % U32_LIMIT
  {
    var k := (a - b) / U32_LIMIT;
    assert a == b + k * U32_LIMIT;
  }

  // (hi & 0xFFFC0000) === 0: the mask keeps the top fourteen bits of the high half.
  predicate TopBitsZero(hi: u32) {
    hi / 0x4_0000 == 0
  }

  lemma TopBitsOfTheHash(hi: u32, lo: u32)
    ensures TopBitsZero(hi) <==> hi * U32_LIMIT + lo < 0x4_0000_0000_0000
  {
  }

  lemma {:induction false} FirstCutIs(g: Gear, s: seq<byte>, n: nat, c: nat)
    requires g.Valid() && 0 < n <= c <= |s| && c <= MAX_CHUNK
    requires forall k | n <= k < c :: !Cuts(g, s[..k])
    requires Cuts(g, s[..c]) || c == |s|
    ensures FirstCut(g, s, n) == c
    decreases c - n
  {
    if n < c {
      assert !Cuts(g, s[..n]);
      FirstCutIs(g, s, n + 1, c);
    }
  }

  // A piece taken off the rest of the input and described at the end of the output.
  lemma TakePiece(g: Gear, h: seq<byte> -> Digest, done: seq<seq<byte>>, rest: seq<byte>, c: nat)
    requires g.Valid() && 0 < c <= |rest| && FirstCut(g, rest, 1) == c
    ensures done + Pieces(g, rest) == (done + [rest[..c]]) + Pieces(g, rest[c..])
    ensures Describe(h, done + [rest[..c]]) == Describe(h, done) + [Chunk(h(rest[..c]), c)]
  {
  }

  // What the loop has read since the last cut: the halves hold its hash, and no cut fell inside it.
  ghost predicate Reading(g: Gear, read: seq<byte>, hi: u32, lo: u32)
    requires g.Valid()
  {
    && hi * U32_LIMIT + lo == Hash(g, read)
    && forall k | 0 < k <= |read| :: !Cuts(g, read[..k])
  }

  lemma ReadByte(g: Gear, read: seq<byte>, hi: u32, lo: u32, b: byte)
    requires g.Valid() && Reading(g, read, hi, lo) && |read| < MAX_CHUNK
    ensures var (hi', lo') := Step(g, hi, lo, b);
            var now := read + [b];
            && ((|now| >= MIN_CHUNK && TopBitsZero(hi')) || |now| == MAX_CHUNK <==> Cuts(g, now))
            && (!Cuts(g, now) ==> Reading(g, now, hi', lo'))
            && (Cuts(g, now) ==> forall s: seq<byte> | now <= s :: FirstCut(g, s, 1) == |now|)
  {
    hide Step;
    var (hi', lo') := Step(g, hi, lo, b);
    var now := read + [b];
    assert now[..|read|] == read;
    StepIsTheHash(g, hi, lo, b);
    TopBitsOfTheHash(hi', lo');
    forall k | 0 < k <= |read| ensures !Cuts(g, now[..k]) {
      assert now[..k] == read[..k];
    }
    assert now[..|now|] == now;
    forall s: seq<byte> | now <= s && Cuts(g, now) ensures FirstCut(g, s, 1) == |now| {
      assert s[..|now|] == now;
      forall k | 1 <= k < |now| ensures !Cuts(g, s[..k]) {
        assert s[..k] == now[..k];
      }
      FirstCutIs(g, s, 1, |now|);
    }
  }

  lemma LastPiece(g: Gear, rest: seq<byte>, hi: u32, lo: u32)
    requires g.Valid() && rest != [] && |rest| <= MAX_CHUNK && Reading(g, rest, hi, lo)
    ensures FirstCut(g, rest, 1) == |rest|
  {
    FirstCutIs(g, rest, 1, |rest|);
  }

  method Cut(g: Gear, h: seq<byte> -> Digest, bytes: seq<byte>) returns (out: seq<Chunk>)
    requires g.Valid()
    ensures out == Describe(h, Pieces(g, bytes))
  {
    hide Step, FirstCut, Pieces, Reading, Cuts;
    out := [];
    var start, hi, lo := 0, 0, 0;
    ghost var done: seq<seq<byte>> := [];
    assert bytes[0..] == bytes && [] + Pieces(g, bytes) == Pieces(g, bytes);
    NothingRead(g);
    for i := 0 to |bytes|
      invariant start <= i && i - start < MAX_CHUNK
      invariant out == Describe(h, done)
      invariant Pieces(g, bytes) == done + Pieces(g, bytes[start..])
      invariant Reading(g, bytes[start..i], hi, lo)
    {
      var b := bytes[i];
      ReadByte(g, bytes[start..i], hi, lo, b);
      assert bytes[start..i] + [b] == bytes[start..i + 1] <= bytes[start..];
      var halves := Step(g, hi, lo, b);
      hi, lo := halves.0, halves.1;
      var length := i - start + 1;
      if (length >= MIN_CHUNK && TopBitsZero(hi)) || length == MAX_CHUNK {
        TakePiece(g, h, done, bytes[start..], length);
        assert bytes[start..][..length] == bytes[start..i + 1] && bytes[start..][length..] == bytes[i + 1..];
        out := out + [Chunk(h(bytes[start..i + 1]), length)];
        done := done + [bytes[start..i + 1]];
        start, hi, lo := i + 1, 0, 0;
        assert bytes[start..i + 1] == [];
      }
    }
    if start < |bytes| {
      assert bytes[start..|bytes|] == bytes[start..];
      LastPiece(g, bytes[start..], hi, lo);
      TakePiece(g, h, done, bytes[start..], |bytes| - start);
      assert bytes[start..][..|bytes| - start] == bytes[start..];
      out := out + [Chunk(h(bytes[start..]), |bytes| - start)];
      done := done + [bytes[start..]];
      start := |bytes|;
      assert bytes[start..] == [];
    }
    PiecesOfNothing(g);
    assert done + [] == done;
  }

  lemma NothingRead(g: Gear)
    requires g.Valid()
    ensures Reading(g, [], 0, 0)
  {
  }

  lemma PiecesOfNothing(g: Gear)
    requires g.Valid()
    ensures Pieces(g, []) == []
  {
  }

  /* -------- The cut is local, and re-synchronises -------- */

  function Pow2(n: nat): (p: nat)
    ensures p > 0
  {
    if n == 0 then 1 else 2 * Pow2(n - 1)
  }

  // The hash before it is reduced.
  function Sum(g: Gear, s: seq<byte>): nat
    requires g.Valid()
  {
    if s == [] then 0 else 2 * Sum(g, s[..|s| - 1]) + g.At(s[|s| - 1])
  }

  lemma {:induction false} HashIsReducedSum(g: Gear, s: seq<byte>)
    requires g.Valid()
    ensures Hash(g, s) == Sum(g, s) % U64_LIMIT
    decreases |s|
  {
    if s != [] {
      var t := s[..|s| - 1];
      HashIsReducedSum(g, t);
      ReduceOnce(Sum(g, t), g.At(s[|s| - 1]));
    }
  }

  lemma ReduceOnce(u: nat, v: nat)
    ensures (2 * (u % U64_LIMIT) + v) % U64_LIMIT == (2 * u + v) % U64_LIMIT
  {
    var q := u / U64_LIMIT;
    WholeMultiples((2 * (u % U64_LIMIT) + v) % U64_LIMIT, (2 * (u % U64_LIMIT) + v) / U64_LIMIT + 2 * q);
  }

  lemma {:induction false} SumConcat(g: Gear, a: seq<byte>, b: seq<byte>)
    requires g.Valid()
    ensures Sum(g, a + b) == Pow2(|b|) * Sum(g, a) + Sum(g, b)
    decreases |b|
  {
    hide Sum;
    EmptySum(g);
    if b == [] {
      assert a + b == a;
    } else {
      var c, last := b[..|b| - 1], b[|b| - 1];
      SumConcat(g, a, c);
      SumSnoc(g, a + c, last);
      SumSnoc(g, c, last);
      assert a + b == (a + c) + [last] && b == c + [last];
      DoubleSum(Pow2(|c|), Sum(g, a), Sum(g, c));
    }
  }

  lemma EmptySum(g: Gear)
    requires g.Valid()
    ensures Sum(g, []) == 0
  {
  }

  lemma SumSnoc(g: Gear, s: seq<byte>, b: byte)
    requires g.Valid()
    ensures Sum(g, s + [b]) == 2 * Sum(g, s) + g.At(b)
  {
    assert (s + [b])[..|s|] == s;
  }

  lemma DoubleSum(p: nat, u: nat, v: nat)
    ensures 2 * (p * u + v) == (2 * p) * u + 2 * v
  {
  }

  lemma Pow2At64()
    ensures Pow2(64) == U64_LIMIT
  {
    assert Pow2(8) == 256;
    assert Pow2(16) == 65536;
    assert Pow2(24) == 16777216;
    assert Pow2(32) == 4294967296;
    assert Pow2(40) == 1099511627776;
    assert Pow2(48) == 281474976710656;
    assert Pow2(56) == 72057594037927936;
  }

  // The hash of a chunk is that of its last 64 bytes: what came before has been shifted out of the 64 bits.
  lemma HashForgets(g: Gear, s: seq<byte>)
    requires g.Valid() && |s| >= 64
    ensures Hash(g, s) == Hash(g, s[|s| - 64..])
  {
    hide Hash, Sum, Pow2;
    var a, b := s[..|s| - 64], s[|s| - 64..];
    assert s == a + b;
    HashIsReducedSum(g, s);
    HashIsReducedSum(g, b);
    SumConcat(g, a, b);
    Pow2At64();
    MultipleVanishes(Sum(g, a), Sum(g, b));
  }

  lemma MultipleVanishes(u: nat, v: nat)
    ensures (U64_LIMIT * u + v) % U64_LIMIT == v % U64_LIMIT
  {
    WholeMultiples(v % U64_LIMIT, u + v / U64_LIMIT);
  }

  // Whether the hash cuts a chunk long enough to be cut depends on no byte more than 64 back.
  lemma HashCutIsLocal(g: Gear, c: seq<byte>, d: seq<byte>)
    requires g.Valid() && |c| >= MIN_CHUNK && |d| >= MIN_CHUNK
    requires c[|c| - 64..] == d[|d| - 64..]
    ensures HashCuts(g, c) <==> HashCuts(g, d)
  {
    HashForgets(g, c);
    HashForgets(g, d);
  }

  // The offset at which the first n chunks of s end.
  function Offset(g: Gear, s: seq<byte>, n: nat): (o: nat)
    requires g.Valid() && n <= |Pieces(g, s)|
    ensures o <= |s|
    decreases n
  {
    if n == 0 then 0 else
      var c := FirstCut(g, s, 1);
      c + Offset(g, s[c..], n - 1)
  }

  lemma {:induction false} PiecesFrom(g: Gear, s: seq<byte>, n: nat)
    requires g.Valid() && n <= |Pieces(g, s)|
    ensures Pieces(g, s)[n..] == Pieces(g, s[Offset(g, s, n)..])
    decreases n
  {
    if n == 0 {
      assert s[0..] == s;
    } else {
      var c := FirstCut(g, s, 1);
      PiecesFrom(g, s[c..], n - 1);
      assert s[c..][Offset(g, s[c..], n - 1)..] == s[Offset(g, s, n)..];
      assert Pieces(g, s)[n..] == Pieces(g, s[c..])[n - 1..];
    }
  }

  lemma SameTail(a: seq<byte>, b: seq<byte>, shared: seq<byte>, i: nat, j: nat)
    requires i <= |a| && j <= |b| && |a| - i == |b| - j <= |shared|
    requires |shared| <= |a| && |shared| <= |b|
    requires a[|a| - |shared|..] == shared == b[|b| - |shared|..]
    ensures a[i..] == b[j..]
  {
    var k := |shared| - (|a| - i);
    assert a[i..] == a[|a| - |shared|..][k..];
    assert b[j..] == b[|b| - |shared|..][k..];
  }

  // Two inputs that end in the same bytes and have one cut at the same point of them are cut alike from there on.
  lemma CutsResynchronise(g: Gear, a: seq<byte>, b: seq<byte>, shared: seq<byte>, m: nat, n: nat)
    requires g.Valid() && m <= |Pieces(g, a)| && n <= |Pieces(g, b)|
    requires |shared| <= |a| && |shared| <= |b|
    requires a[|a| - |shared|..] == shared == b[|b| - |shared|..]
    requires |a| - |shared| <= Offset(g, a, m) && |b| - |shared| <= Offset(g, b, n)
    requires |a| - Offset(g, a, m) == |b| - Offset(g, b, n)
    ensures Pieces(g, a)[m..] == Pieces(g, b)[n..]
  {
    hide Pieces, Offset;
    PiecesFrom(g, a, m);
    PiecesFrom(g, b, n);
    SameTail(a, b, shared, Offset(g, a, m), Offset(g, b, n));
  }
}
