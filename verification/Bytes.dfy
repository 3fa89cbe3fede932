// Bytes, and the fixed-width numbers Node's Buffer reads and writes in them.
module Bytes {
  type byte = b: int | 0 <= b < 256

  const U32_LIMIT := 0x1_0000_0000
  const U64_LIMIT := 0x1_0000_0000_0000_0000

  function Zeros(n: nat): (z: seq<byte>)
    ensures |z| == n && forall i | 0 <= i < n :: z[i] == 0
  {
    seq(n, i => 0)
  }

  // The characters of an ASCII text as bytes.
  function Ascii(s: string): (b: seq<byte>)
    requires forall i | 0 <= i < |s| :: s[i] < 128 as char
    ensures |b| == |s| && forall i | 0 <= i < |s| :: b[i] == s[i] as int
  {
    seq<byte>(|s|, i requires 0 <= i < |s| => AsciiByte(s[i]))
  }

  function AsciiByte(c: char): byte
    requires c < 128 as char
  {
    c as int
  }

  lemma HexAlphabet()
    ensures forall c: byte :: c in Ascii("0123456789abcdef") <==> '0' as int <= c as int <= '9' as int || 'a' as int <= c as int <= 'f' as int
  {
    var a := Ascii("0123456789abcdef");
    forall c: byte | '0' as int <= c as int <= '9' as int ensures c in a {
      assert a[c as int - '0' as int] == c;
    }
    forall c: byte | 'a' as int <= c as int <= 'f' as int ensures c in a {
      assert a[c as int - 'a' as int + 10] == c;
    }
  }

  function Pow256(k: nat): (p: nat)
    ensures p > 0
  {
    if k == 0 then 1 else 256 * Pow256(k - 1)
  }

  // The k-byte big-endian encoding of n, as Buffer.writeUInt32BE and writeBigUInt64BE lay it out.
  function BigEndian(n: nat, k: nat): (b: seq<byte>)
    ensures |b| == k
  {
    if k == 0 then [] else BigEndian(n / 256, k - 1) + [n % 256]
  }

  function FromBigEndian(b: seq<byte>): (n: nat)
    ensures n < Pow256(|b|)
  {
    if b == [] then 0 else 256 * FromBigEndian(b[..|b| - 1]) + b[|b| - 1]
  }

  lemma {:induction false} BigEndianRoundTrip(n: nat, k: nat)
    requires n < Pow256(k)
    ensures FromBigEndian(BigEndian(n, k)) == n
  {
    if k > 0 {
      BigEndianRoundTrip(n / 256, k - 1);
      assert BigEndian(n, k)[..k - 1] == BigEndian(n / 256, k - 1);
    }
  }

  lemma {:induction false} BigEndianOf(b: seq<byte>)
    ensures BigEndian(FromBigEndian(b), |b|) == b
  {
    if b != [] {
      BigEndianOf(b[..|b| - 1]);
    }
  }

  // The four bytes of a word and the eight of a double word, the most significant first.
  lemma FourBytes(n: nat)
    requires n < U32_LIMIT
    ensures BigEndian(n, 4) == [n / 0x100_0000, n / 0x1_0000 % 256, n / 0x100 % 256, n % 256]
  {
    assert BigEndian(n / 0x100_0000, 1) == [n / 0x100_0000 % 256];
    assert BigEndian(n / 0x1_0000, 2) == BigEndian(n / 0x100_0000, 1) + [n / 0x1_0000 % 256];
    assert BigEndian(n / 0x100, 3) == BigEndian(n / 0x1_0000, 2) + [n / 0x100 % 256];
  }

  lemma EightBytes(n: nat)
    requires n < U64_LIMIT
    ensures BigEndian(n, 8) == BigEndian(n / U32_LIMIT, 4) + BigEndian(n % U32_LIMIT, 4)
  {
    hide BigEndian;
    var n1 := n / 256;
    var n2 := n1 / 256;
    var n3 := n2 / 256;
    var n4 := n3 / 256;
    var low := n % 256 + 256 * (n1 % 256) + 0x1_0000 * (n2 % 256) + 0x100_0000 * (n3 % 256);
    BigEndianStep(n, 8);
    BigEndianStep(n1, 7);
    BigEndianStep(n2, 6);
    BigEndianStep(n3, 5);
    assert n == U32_LIMIT * n4 + low;
    assert n / U32_LIMIT == n4 && n % U32_LIMIT == low;
    WordOfDigits(n % 256, n1 % 256, n2 % 256, n3 % 256);
  }

  lemma BigEndianStep(n: nat, k: nat)
    requires k > 0
    ensures BigEndian(n, k) == BigEndian(n / 256, k - 1) + [n % 256]
  {
  }

  lemma WordOfDigits(a: byte, b: byte, c: byte, d: byte)
    ensures BigEndian(a + 0x100 * b + 0x1_0000 * c + 0x100_0000 * d, 4) == [d, c, b, a]
  {
    hide BigEndian;
    LastDigit(b + 0x100 * c + 0x1_0000 * d, a, 4);
    LastDigit(c + 0x100 * d, b, 3);
    LastDigit(d, c, 2);
    LastDigit(0, d, 1);
    NoDigits();
  }

  lemma LastDigit(n: nat, a: byte, k: nat)
    requires k > 0
    ensures BigEndian(a + 256 * n, k) == BigEndian(n, k - 1) + [a]
  {
  }

  lemma NoDigits()
    ensures BigEndian(0, 0) == []
  {
  }

  lemma FixedWidths()
    ensures Pow256(4) == U32_LIMIT && Pow256(8) == U64_LIMIT
  {
    assert Pow256(2) == 65536;
    assert Pow256(6) == 281474976710656;
  }

  // A buffer cut at the given offset and length.
  function Slice(b: seq<byte>, at: nat, n: nat): (r: seq<byte>)
    requires at + n <= |b|
    ensures |r| == n
  {
    b[at..at + n]
  }
}
