// The bitwise CRC-32 loop that ubifsCrc (src/image/flash-image.ts) and encodeFitEnvironment
// (src/image/fit-environment.ts) share, and why it detects every change inside four consecutive bytes.
module Crc32 {
  import opened Bytes
  import opened Iteration

  const INIT: bv32 := 0xffffffff

  function Xor(a: bv32, b: bv32): bv32 {
    a ^ b
  }

  // One round of the bit loop.
  function Shift(crc: bv32): bv32 {
    (crc >> 1) ^ (0xedb88320 & (0 - (crc & 1)))
  }

  function Extend(b: bv8): (w: bv32)
    ensures w < 256
  {
    b as bv32
  }

  // One round of the byte loop.
  function Step(crc: bv32, b: bv8): bv32 {
    Iterate(Shift, Xor(crc, Extend(b)), 8)
  }

  // The state after feeding a buffer to the loop.
  function Feed(crc: bv32, bytes: seq<bv8>): bv32 {
    if bytes == [] then crc else Step(Feed(crc, bytes[..|bytes| - 1]), bytes[|bytes| - 1])
  }

  function UbifsCrc(bytes: seq<bv8>): bv32 {
    Feed(INIT, bytes)
  }

  function EnvironmentCrc(bytes: seq<bv8>): bv32 {
    !Feed(INIT, bytes)
  }

  function Low(w: bv32): (l: bv32)
    ensures l < 256
  {
    w & 0xff
  }

  function Octet(w: bv32): bv8 {
    Low(w) as bv8
  }

  // A word moved down by some of its bytes, and up.
  function Down(w: bv32, bytes: nat): bv32
    requires bytes < 4
  {
    if bytes == 0 then w else if bytes == 1 then w >> 8 else if bytes == 2 then w >> 16 else w >> 24
  }

  function Up(w: bv32, bytes: nat): bv32
    requires bytes < 4
  {
    if bytes == 0 then w else if bytes == 1 then w << 8 else if bytes == 2 then w << 16 else w << 24
  }

  // Buffer.writeUInt32LE.
  function LittleEndian(w: bv32): (b: seq<bv8>)
    ensures |b| == 4
  {
    [Octet(w), Octet(Down(w, 1)), Octet(Down(w, 2)), Octet(Down(w, 3))]
  }

  // The bytes of a buffer as the loop reads them, and the bytes it writes back.
  function BitVectors(s: seq<byte>): (v: seq<bv8>)
    ensures |v| == |s|
  {
    seq<bv8>(|s|, i requires 0 <= i < |s| => s[i] as bv8)
  }

  function Octets(s: seq<bv8>): (b: seq<byte>)
    ensures |b| == |s|
  {
    seq<byte>(|s|, i requires 0 <= i < |s| => s[i] as int)
  }

  method FeedLoop(bytes: seq<bv8>) returns (crc: bv32)
    ensures crc == Feed(INIT, bytes)
  {
    hide Shift, Xor;
    crc := INIT;
    for i := 0 to |bytes|
      invariant crc == Feed(INIT, bytes[..i])
    {
      ghost var entered := Xor(crc, Extend(bytes[i]));
      crc := Xor(crc, Extend(bytes[i]));
      for bit := 0 to 8
        invariant crc == Iterate(Shift, entered, bit)
      {
        crc := Shift(crc);
      }
      assert bytes[..i + 1][..i] == bytes[..i];
    }
    assert bytes[..|bytes|] == bytes;
  }

  // The two CRCs of the repository are complements of one another on every buffer.
  lemma CrcsAreComplements(bytes: seq<bv8>)
    ensures EnvironmentCrc(bytes) == !UbifsCrc(bytes)
    ensures Xor(EnvironmentCrc(bytes), UbifsCrc(bytes)) == 0xffffffff
  {
    hide *;
    EnvironmentIsComplement(bytes);
    Complement(UbifsCrc(bytes));
  }

  lemma EnvironmentIsComplement(bytes: seq<bv8>)
    ensures EnvironmentCrc(bytes) == !UbifsCrc(bytes)
  {
    hide Feed;
  }

  lemma Complement(c: bv32)
    ensures Xor(!c, c) == 0xffffffff
  {
  }

  lemma {:induction false} FeedConcat(crc: bv32, a: seq<bv8>, b: seq<bv8>)
    ensures Feed(crc, a + b) == Feed(Feed(crc, a), b)
    decreases |b|
  {
    hide Step;
    if b == [] {
      assert a + b == a;
    } else {
      var n := |b| - 1;
      FeedConcat(crc, a, b[..n]);
      assert (a + b)[..|a + b| - 1] == a + b[..n];
    }
  }

  /* -------- A bijection in the state -------- */

  function Unshift(crc: bv32): bv32 {
    if crc & 0x80000000 != 0 then ((crc ^ 0xedb88320) << 1) | 1 else crc << 1
  }

  lemma UnshiftShift(crc: bv32)
    ensures Unshift(Shift(crc)) == crc
  {
  }

  lemma ShiftUnshift(crc: bv32)
    ensures Shift(Unshift(crc)) == crc
  {
    if crc & 0x80000000 != 0 {
      DoubledOdd(crc);
      ShiftOdd(((crc ^ 0xedb88320) << 1) | 1);
      XorTwice(crc, 0xedb88320);
    }
  }

  lemma ShiftOdd(c: bv32)
    requires c & 1 == 1
    ensures Shift(c) == (c >> 1) ^ 0xedb88320
  {
  }

  lemma DoubledOdd(c: bv32)
    requires c & 0x80000000 != 0
    ensures (((c ^ 0xedb88320) << 1) | 1) & 1 == 1
    ensures (((c ^ 0xedb88320) << 1) | 1) >> 1 == c ^ 0xedb88320
  {
  }

  lemma XorTwice(x: bv32, y: bv32)
    ensures (x ^ y) ^ y == x
    ensures Xor(Xor(x, y), y) == x
  {
  }

  function Unstep(crc: bv32, b: bv8): bv32 {
    Xor(Iterate(Unshift, crc, 8), Extend(b))
  }

  lemma RoundsInverse(crc: bv32, n: nat)
    ensures Iterate(Unshift, Iterate(Shift, crc, n), n) == crc
    ensures Iterate(Shift, Iterate(Unshift, crc, n), n) == crc
  {
    hide Shift, Unshift;
    forall y ensures Unshift(Shift(y)) == y {
      UnshiftShift(y);
    }
    forall y ensures Shift(Unshift(y)) == y {
      ShiftUnshift(y);
    }
    IterateInverse(Shift, Unshift, crc, n);
    IterateInverse(Unshift, Shift, crc, n);
  }

  // For each byte the loop is a bijection in its state: Unstep is its inverse on both sides.
  lemma StepIsBijective(crc: bv32, b: bv8)
    ensures Unstep(Step(crc, b), b) == crc
    ensures Step(Unstep(crc, b), b) == crc
  {
    hide Shift, Unshift, Xor, Iterate;
    RoundsInverse(Xor(crc, Extend(b)), 8);
    RoundsInverse(crc, 8);
    XorTwice(crc, Extend(b));
    XorTwice(Iterate(Unshift, crc, 8), Extend(b));
  }

  lemma {:induction false} FeedInjectiveInState(c: bv32, d: bv32, bytes: seq<bv8>)
    requires Feed(c, bytes) == Feed(d, bytes)
    ensures c == d
    decreases |bytes|
  {
    hide Step, Unstep;
    if bytes != [] {
      var n := |bytes| - 1;
      StepIsBijective(Feed(c, bytes[..n]), bytes[n]);
      StepIsBijective(Feed(d, bytes[..n]), bytes[n]);
      FeedInjectiveInState(c, d, bytes[..n]);
    }
  }

  /* -------- A bijection in four consecutive bytes -------- */

  function Double(y: bv32): bv32 {
    y << 1
  }

  predicate Fits(y: bv32) {
    y < 0x80000000
  }

  lemma ShiftDelaysXor(x: bv32, y: bv32)
    requires y < 0x80000000
    ensures Shift(x ^ (y << 1)) == Shift(x) ^ y
  {
  }

  lemma ShiftDelaysDouble(x: bv32, y: bv32)
    requires Fits(y)
    ensures Shift(Xor(x, Double(y))) == Xor(Shift(x), y)
  {
    hide Shift;
    ShiftDelaysXor(x, y);
  }

  lemma ShiftDelays()
    ensures Delays(Shift, Xor, Double, Fits)
  {
    hide Shift, Xor, Double, Fits;
    forall x, y | Fits(y) ensures Shift(Xor(x, Double(y))) == Xor(Shift(x), y) {
      ShiftDelaysDouble(x, y);
    }
  }

  lemma DoubleEight(y: bv32)
    requires y < 0x1000000
    ensures Double(y) == y << 1 && Double(y << 1) == y << 2 && Double(y << 2) == y << 3 && Double(y << 3) == y << 4
    ensures Double(y << 4) == y << 5 && Double(y << 5) == y << 6 && Double(y << 6) == y << 7 && Double(y << 7) == y << 8
    ensures Fits(y) && Fits(y << 1) && Fits(y << 2) && Fits(y << 3) && Fits(y << 4) && Fits(y << 5) && Fits(y << 6) && Fits(y << 7)
  {
  }

  lemma ShiftLeftEight(y: bv32)
    requires y < 0x1000000
    ensures Iterate(Double, y, 8) == y << 8
    ensures FitsFor(Double, Fits, y, 8)
  {
    hide Double, Fits;
    DoubleEight(y);
    assert Iterate(Double, y, 0) == y;
    assert Iterate(Double, y, 1) == y << 1;
    assert Iterate(Double, y, 2) == y << 2;
    assert Iterate(Double, y, 3) == y << 3;
    assert Iterate(Double, y, 4) == y << 4;
    assert Iterate(Double, y, 5) == y << 5;
    assert Iterate(Double, y, 6) == y << 6;
    assert Iterate(Double, y, 7) == y << 7;
    assert Iterate(Double, y, 8) == y << 8;
  }

  lemma FitsForAdd(y: bv32, m: nat, n: nat)
    requires FitsFor(Double, Fits, y, m) && FitsFor(Double, Fits, Iterate(Double, y, m), n)
    ensures FitsFor(Double, Fits, y, m + n)
  {
    hide Double, Fits;
    forall k: nat | k < m + n ensures Fits(Iterate(Double, y, k)) {
      if k >= m {
        IterateAdd(Double, y, m, k - m);
      }
    }
  }

  // A byte doubled 8, 16 and 24 times moves into the second, third and fourth byte of the word.
  lemma ByteFits(b: bv8)
    ensures FitsFor(Double, Fits, Extend(b), 8) && Iterate(Double, Extend(b), 8) == Up(Extend(b), 1)
    ensures FitsFor(Double, Fits, Extend(b), 16) && Iterate(Double, Extend(b), 16) == Up(Extend(b), 2)
    ensures FitsFor(Double, Fits, Extend(b), 24) && Iterate(Double, Extend(b), 24) == Up(Extend(b), 3)
  {
    hide Double, Fits, Iterate, FitsFor, Extend;
    var y := Extend(b);
    SmallShifts(y);
    ShiftLeftEight(y);
    ShiftLeftEight(y << 8);
    ShiftLeftEight((y << 8) << 8);
    FitsForAdd(y, 8, 8);
    IterateAdd(Double, y, 8, 8);
    FitsForAdd(y, 16, 8);
    IterateAdd(Double, y, 16, 8);
  }

  lemma SmallShifts(y: bv32)
    requires y < 256
    ensures y << 8 < 0x10000 && (y << 8) << 8 < 0x1000000
    ensures (y << 8) << 8 == y << 16 && ((y << 8) << 8) << 8 == y << 24
  {
  }

  // Four bytes combined with a state as one little-endian word.
  function Word(s: bv32, b: seq<bv8>): bv32
    requires |b| == 4
  {
    Xor(Xor(Xor(Xor(s, Extend(b[0])), Up(Extend(b[1]), 1)), Up(Extend(b[2]), 2)), Up(Extend(b[3]), 3))
  }

  lemma FeedFour(s: bv32, b: seq<bv8>)
    requires |b| == 4
    ensures Feed(s, b) == Iterate(Shift, Word(s, b), 32)
  {
    hide Shift, Xor, Iterate, Extend, Double, Fits, Delays, FitsFor;
    var c := [Extend(b[0]), Extend(b[1]), Extend(b[2]), Extend(b[3])];
    assert Feed(s, b) == Rounds(Shift, Xor, s, c, 8) by {
      assert b[..3][..2] == b[..2] && b[..2][..1] == b[..1] && b[..1][..0] == [];
      assert Feed(s, b[..1]) == Step(s, b[0]);
      assert Feed(s, b[..2]) == Step(Feed(s, b[..1]), b[1]);
      assert Feed(s, b[..3]) == Step(Feed(s, b[..2]), b[2]);
      assert Feed(s, b) == Step(Feed(s, b[..3]), b[3]);
    }
    ShiftDelays();
    ByteFits(b[1]);
    ByteFits(b[2]);
    ByteFits(b[3]);
    FourRounds(Shift, Xor, Double, Fits, s, c, 8);
  }

  // The word as bytes again.
  function Unword(s: bv32, w: bv32): seq<bv8> {
    LittleEndian(Xor(s, w))
  }

  lemma WordBits(c0: bv32, c1: bv32, c2: bv32, c3: bv32)
    requires c0 < 256 && c1 < 256 && c2 < 256 && c3 < 256
    ensures var x := Xor(Xor(Xor(c0, Up(c1, 1)), Up(c2, 2)), Up(c3, 3));
            Low(x) == c0 && Low(Down(x, 1)) == c1 && Low(Down(x, 2)) == c2 && Low(Down(x, 3)) == c3
  {
  }

  lemma XorAssociates(a: bv32, b: bv32, c: bv32)
    ensures Xor(Xor(a, b), c) == Xor(a, Xor(b, c))
  {
  }

  lemma XorCancels(a: bv32, b: bv32)
    ensures Xor(a, Xor(a, b)) == b
  {
  }

  lemma NarrowWiden(v: bv8)
    ensures (v as bv32) as bv8 == v
  {
  }

  lemma OctetExtend(w: bv32, b: bv8)
    requires Low(w) == Extend(b)
    ensures Octet(w) == b
  {
    hide Low;
    NarrowWiden(b);
  }

  lemma WordFactors(s: bv32, c0: bv32, c1: bv32, c2: bv32, c3: bv32)
    ensures Xor(s, Xor(Xor(Xor(Xor(s, c0), c1), c2), c3)) == Xor(Xor(Xor(c0, c1), c2), c3)
  {
    hide Xor;
    XorAssociates(s, c0, c1);
    XorAssociates(s, Xor(c0, c1), c2);
    XorAssociates(s, Xor(Xor(c0, c1), c2), c3);
    XorCancels(s, Xor(Xor(Xor(c0, c1), c2), c3));
  }

  // For every state, four bytes are determined by the word they form with it.
  lemma UnwordWord(s: bv32, b: seq<bv8>)
    requires |b| == 4
    ensures Unword(s, Word(s, b)) == b
  {
    hide Xor, Extend, Octet, Low, Up, Down;
    WordFactors(s, Extend(b[0]), Up(Extend(b[1]), 1), Up(Extend(b[2]), 2), Up(Extend(b[3]), 3));
    WordBits(Extend(b[0]), Extend(b[1]), Extend(b[2]), Extend(b[3]));
    var x := Xor(s, Word(s, b));
    OctetExtend(x, b[0]);
    OctetExtend(Down(x, 1), b[1]);
    OctetExtend(Down(x, 2), b[2]);
    OctetExtend(Down(x, 3), b[3]);
  }

  lemma ExtendOctet(w: bv32)
    ensures Extend(Octet(w)) == Low(w)
  {
  }

  lemma Reassembled(x: bv32)
    ensures Xor(Xor(Xor(Low(x), Up(Low(Down(x, 1)), 1)), Up(Low(Down(x, 2)), 2)), Up(Low(Down(x, 3)), 3)) == x
  {
  }

  lemma WordUnword(s: bv32, w: bv32)
    ensures Word(s, Unword(s, w)) == w
  {
    hide Xor, Extend, Octet, Low, Up, Down;
    var x := Xor(s, w);
    ExtendOctet(x);
    ExtendOctet(Down(x, 1));
    ExtendOctet(Down(x, 2));
    ExtendOctet(Down(x, 3));
    Reassembled(x);
    XorAssociates(s, Low(x), Up(Low(Down(x, 1)), 1));
    XorAssociates(s, Xor(Low(x), Up(Low(Down(x, 1)), 1)), Up(Low(Down(x, 2)), 2));
    XorAssociates(s, Xor(Xor(Low(x), Up(Low(Down(x, 1)), 1)), Up(Low(Down(x, 2)), 2)), Up(Low(Down(x, 3)), 3));
    XorCancels(s, w);
  }

  // The four bytes that lead from state s to state t.
  function FourBytesBetween(s: bv32, t: bv32): (b: seq<bv8>)
    ensures |b| == 4
  {
    Unword(s, Iterate(Unshift, t, 32))
  }

  // From every state, the loop maps the four-byte sequences one to one onto the states.
  lemma FeedFourIsBijective(s: bv32, b: seq<bv8>, t: bv32)
    requires |b| == 4
    ensures FourBytesBetween(s, Feed(s, b)) == b
    ensures Feed(s, FourBytesBetween(s, t)) == t
  {
    hide Shift, Unshift, Xor, Extend, Iterate, Word, Unword, Feed;
    FeedFour(s, b);
    RoundsInverse(Word(s, b), 32);
    UnwordWord(s, b);
    FeedFour(s, FourBytesBetween(s, t));
    WordUnword(s, Iterate(Unshift, t, 32));
    RoundsInverse(t, 32);
  }

  /* -------- What the CRC detects -------- */

  // The bytes of a at the places from k on, four of them.
  lemma FeedSplit(s: bv32, a: seq<bv8>, k: nat)
    requires k + 4 <= |a|
    ensures Feed(s, a) == Feed(Feed(Feed(s, a[..k]), a[k..k + 4]), a[k + 4..])
  {
    hide Step, Feed;
    assert a == a[..k] + a[k..k + 4] + a[k + 4..];
    FeedConcat(s, a[..k], a[k..k + 4]);
    FeedConcat(s, a[..k] + a[k..k + 4], a[k + 4..]);
  }

  ghost predicate DifferOnlyWithin(a: seq<bv8>, b: seq<bv8>, k: nat) {
    && |a| == |b|
    && forall i | 0 <= i < |a| && !(k <= i < k + 4) :: a[i] == b[i]
  }

  lemma WindowFits(s: bv32, a: seq<bv8>, b: seq<bv8>, k: nat)
    requires DifferOnlyWithin(a, b, k) && k + 4 <= |a|
    requires Feed(s, a) == Feed(s, b)
    ensures a == b
  {
    hide Step, Feed;
    FeedSplit(s, a, k);
    FeedSplit(s, b, k);
    assert a[..k] == b[..k] && a[k + 4..] == b[k + 4..];
    var t := Feed(s, a[..k]);
    FeedInjectiveInState(Feed(t, a[k..k + 4]), Feed(t, b[k..k + 4]), a[k + 4..]);
    FeedFourIsBijective(t, a[k..k + 4], t);
    FeedFourIsBijective(t, b[k..k + 4], t);
    assert a == a[..k] + a[k..k + 4] + a[k + 4..];
    assert b == b[..k] + b[k..k + 4] + b[k + 4..];
  }

  lemma WindowDetermined(s: bv32, a: seq<bv8>, b: seq<bv8>, k: nat)
    requires DifferOnlyWithin(a, b, k)
    requires Feed(s, a) == Feed(s, b)
    ensures a == b
  {
    hide Step, Feed;
    if k < |a| {
      var pad: seq<bv8> := [0, 0, 0, 0];
      FeedConcat(s, a, pad);
      FeedConcat(s, b, pad);
      WindowFits(s, a + pad, b + pad, k);
      assert a == (a + pad)[..|a|] && b == (b + pad)[..|b|];
    }
  }

  // Two different buffers of one length that differ only inside one four-byte window never share a CRC, wherever the
  // window lies and even when the buffers end inside it.
  lemma WindowChangesAreDetected(a: seq<bv8>, b: seq<bv8>, k: nat)
    requires DifferOnlyWithin(a, b, k) && a != b
    ensures UbifsCrc(a) != UbifsCrc(b)
    ensures EnvironmentCrc(a) != EnvironmentCrc(b)
  {
    hide Step, Feed;
    if Feed(INIT, a) == Feed(INIT, b) {
      WindowDetermined(INIT, a, b, k);
    }
    NotInjective(Feed(INIT, a), Feed(INIT, b));
  }

  lemma NotInjective(x: bv32, y: bv32)
    requires x != y
    ensures !x != !y
  {
  }

  /* -------- The check value -------- */

  lemma Shifted(x: bv32)
    ensures Iterate(Shift, x, 8) == Shift(Shift(Shift(Shift(Shift(Shift(Shift(Shift(x))))))))
  {
    hide Shift;
    assert Iterate(Shift, x, 1) == Shift(x);
    assert Iterate(Shift, x, 2) == Shift(Iterate(Shift, x, 1));
    assert Iterate(Shift, x, 3) == Shift(Iterate(Shift, x, 2));
    assert Iterate(Shift, x, 4) == Shift(Iterate(Shift, x, 3));
    assert Iterate(Shift, x, 5) == Shift(Iterate(Shift, x, 4));
    assert Iterate(Shift, x, 6) == Shift(Iterate(Shift, x, 5));
    assert Iterate(Shift, x, 7) == Shift(Iterate(Shift, x, 6));
    assert Iterate(Shift, x, 8) == Shift(Iterate(Shift, x, 7));
  }

  // The states the loop passes through on the digits 1 to 9.
  lemma CheckStates()
    ensures Step(0xffffffff, 0x31) == 0x7c231048
    ensures Step(0x7c231048, 0x32) == 0xb0acbb32
    ensures Step(0xb0acbb32, 0x33) == 0x77b79c2d
    ensures Step(0x77b79c2d, 0x34) == 0x641c1f5c
    ensures Step(0x641c1f5c, 0x35) == 0x340ac5e3
    ensures Step(0x340ac5e3, 0x36) == 0xf68d2c9e
    ensures Step(0xf68d2c9e, 0x37) == 0xaffc9660
    ensures Step(0xaffc9660, 0x38) == 0x651f2550
    ensures Step(0x651f2550, 0x39) == 0x340bc6d9
  {
    Shifted(Xor(0xffffffff, Extend(0x31)));
    Shifted(Xor(0x7c231048, Extend(0x32)));
    Shifted(Xor(0xb0acbb32, Extend(0x33)));
    Shifted(Xor(0x77b79c2d, Extend(0x34)));
    Shifted(Xor(0x641c1f5c, Extend(0x35)));
    Shifted(Xor(0x340ac5e3, Extend(0x36)));
    Shifted(Xor(0xf68d2c9e, Extend(0x37)));
    Shifted(Xor(0xaffc9660, Extend(0x38)));
    Shifted(Xor(0x651f2550, Extend(0x39)));
    hide Iterate;
  }

  // The CRC of the digits 1 to 9 is the check value of CRC-32.
  lemma CheckValue()
    ensures EnvironmentCrc([0x31, 0x32, 0x33, 0x34, 0x35, 0x36, 0x37, 0x38, 0x39]) == 0xcbf43926
  {
    hide Step;
    CheckStates();
    var s: seq<bv8> := [0x31, 0x32, 0x33, 0x34, 0x35, 0x36, 0x37, 0x38, 0x39];
    assert s[..9] == s;
    assert s[..1][..0] == s[..0] && Feed(INIT, s[..1]) == 0x7c231048;
    assert s[..2][..1] == s[..1] && Feed(INIT, s[..2]) == 0xb0acbb32;
    assert s[..3][..2] == s[..2] && Feed(INIT, s[..3]) == 0x77b79c2d;
    assert s[..4][..3] == s[..3] && Feed(INIT, s[..4]) == 0x641c1f5c;
    assert s[..5][..4] == s[..4] && Feed(INIT, s[..5]) == 0x340ac5e3;
    assert s[..6][..5] == s[..5] && Feed(INIT, s[..6]) == 0xf68d2c9e;
    assert s[..7][..6] == s[..6] && Feed(INIT, s[..7]) == 0xaffc9660;
    assert s[..8][..7] == s[..7] && Feed(INIT, s[..8]) == 0x651f2550;
    assert s[..9][..8] == s[..8] && Feed(INIT, s[..9]) == 0x340bc6d9;
  }
}
