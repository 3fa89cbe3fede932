// Reading a buffer at running offsets, as the scanners of src/image/boot-policy.ts do.
module Offsets {
  import opened Wrappers
  import opened Bytes

  // Buffer.indexOf(0, from).
  function Nul(s: seq<byte>, from: nat): (r: Option<nat>)
    ensures r.Some? ==> from <= r.value < |s| && s[r.value] == 0 && forall k | from <= k < r.value :: s[k] != 0
    ensures r.None? ==> forall k | from <= k < |s| :: s[k] != 0
    decreases |s| - from
  {
    if from >= |s| then None else if s[from] == 0 then Some(from) else Nul(s, from + 1)
  }

  // n & ~3 on a JavaScript number: modulo 2^32, signed.
  function Masked(n: nat): (m: int)
    ensures n < U32_LIMIT / 2 ==> m == n - n % 4
    ensures n < U32_LIMIT ==> m == n - n % 4 || m < 0
  {
    var low := n % U32_LIMIT - n % 4;
    if low >= U32_LIMIT / 2 then low - U32_LIMIT else low
  }

  function Padding(n: nat): (z: seq<byte>)
    ensures |z| < 4 && (n + |z|) % 4 == 0
  {
    Zeros((4 - n % 4) % 4)
  }

  // The bytes b stand in s at an offset.
  predicate At(s: seq<byte>, at: nat, b: seq<byte>) {
    at + |b| <= |s| && s[at..at + |b|] == b
  }

  lemma AtConcat(s: seq<byte>, at: nat, a: seq<byte>, b: seq<byte>)
    requires At(s, at, a + b)
    ensures At(s, at, a) && At(s, at + |a|, b)
  {
    var all := s[at..at + |a + b|];
    assert all[..|a|] == a && all[|a|..] == b;
    assert s[at..at + |a|] == all[..|a|] && s[at + |a|..at + |a| + |b|] == all[|a|..];
  }

  lemma AtJoin(s: seq<byte>, at: nat, a: seq<byte>, b: seq<byte>)
    requires At(s, at, a) && At(s, at + |a|, b)
    ensures At(s, at, a + b)
  {
    assert s[at..at + |a + b|] == s[at..at + |a|] + s[at + |a|..at + |a| + |b|];
  }

  lemma AtPrefix(s: seq<byte>, junk: seq<byte>)
    ensures At(s + junk, 0, s)
  {
  }

  lemma BlockHolds(s: seq<byte>, at: nat, b: seq<byte>)
    requires At(s, at, b) && b != []
    ensures at < |s|
  {
  }
}
