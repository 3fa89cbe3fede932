// Reading a number from a buffer, and writing bytes into one at an offset, as Buffer.write, Buffer.copy and the fixed-width
// writers do.
module Buffers {
  import opened Bytes
  import opened Offsets

  // Buffer.readUInt32LE.
  function U32(s: seq<byte>, at: nat): nat
    requires at + 4 <= |s|
  {
    (s[at] as int) + 0x100 * (s[at + 1] as int) + 0x1_0000 * (s[at + 2] as int) + 0x100_0000 * (s[at + 3] as int)
  }

  // A number in k bytes, the least significant first.
  function Little(n: nat, k: nat): (b: seq<byte>)
    ensures |b| == k
  {
    if k == 0 then [] else [n % 256] + Little(n / 256, k - 1)
  }

  lemma ReadsLittle(s: seq<byte>, at: nat, n: nat)
    requires n < U32_LIMIT && At(s, at, Little(n, 4))
    ensures U32(s, at) == n
  {
    LittleFour(n);
    hide Little;
    var b := s[at..at + 4];
    assert b[0] == s[at] && b[1] == s[at + 1] && b[2] == s[at + 2] && b[3] == s[at + 3];
    FourDigits(n);
  }

  // Any four bytes are a number so written.
  lemma LittleOf(s: seq<byte>, at: nat)
    requires at + 4 <= |s|
    ensures At(s, at, Little(U32(s, at), 4)) && U32(s, at) < U32_LIMIT
  {
    LittleDigit(s[at], (s[at + 1] as int) + 0x100 * (s[at + 2] as int) + 0x1_0000 * (s[at + 3] as int), 4);
    LittleDigit(s[at + 1], (s[at + 2] as int) + 0x100 * (s[at + 3] as int), 3);
    LittleDigit(s[at + 2], s[at + 3] as int, 2);
    LittleDigit(s[at + 3], 0, 1);
    assert Little(0, 0) == [];
    hide Little;
    assert s[at..at + 4] == [s[at], s[at + 1], s[at + 2], s[at + 3]];
  }

  lemma LittleDigit(a: byte, n: nat, k: nat)
    requires k > 0
    ensures Little(a + 256 * n, k) == [a] + Little(n, k - 1)
  {
    LittleStep(a + 256 * n, k);
    hide Little;
  }

  lemma LittleStep(n: nat, k: nat)
    requires k > 0
    ensures Little(n, k) == [n % 256] + Little(n / 256, k - 1)
  {
  }

  lemma FourDigits(n: nat)
    requires n < U32_LIMIT
    ensures n % 256 + 0x100 * (n / 0x100 % 256) + 0x1_0000 * (n / 0x1_0000 % 256) + 0x100_0000 * (n / 0x100_0000) == n
  {
    assert n / 0x1_0000 == n / 0x100 / 256 && n / 0x100_0000 == n / 0x1_0000 / 256;
  }

  lemma LittleFour(n: nat)
    requires n < U32_LIMIT
    ensures Little(n, 4) == [n % 256, n / 0x100 % 256, n / 0x1_0000 % 256, n / 0x100_0000]
  {
    assert Little(n / 0x100_0000, 1) == [n / 0x100_0000 % 256];
    assert Little(n / 0x1_0000, 2) == [n / 0x1_0000 % 256] + Little(n / 0x100_0000, 1);
    assert Little(n / 0x100, 3) == [n / 0x100 % 256] + Little(n / 0x1_0000, 2);
  }

  function Splice(s: seq<byte>, at: nat, b: seq<byte>): (r: seq<byte>)
    requires at + |b| <= |s|
    ensures |r| == |s|
    ensures forall k | 0 <= k < |s| :: r[k] == if at <= k < at + |b| then b[k - at] else s[k]
  {
    s[..at] + b + s[at + |b|..]
  }

  method Overwrite(out: array<byte>, at: nat, b: seq<byte>)
    requires at + |b| <= out.Length
    modifies out
    ensures out[..] == Splice(old(out[..]), at, b)
    ensures out[..at] == old(out[..at]) && out[at..at + |b|] == b && out[at + |b|..] == old(out[at + |b|..])
  {
    for i := 0 to |b|
      invariant forall k | 0 <= k < out.Length :: out[k] == if at <= k < at + i then b[k - at] else old(out[k])
    {
      out[at + i] := b[i];
    }
  }
}
