// pinUbifs (src/image/flash-image.ts): a mkfs.ubifs image with its clock and its randomness replaced, in place. On a
// well-formed image the rewrite is canonical and idempotent, leaves every node it touches with a valid CRC, and changes
// no byte but those the clock and the randomness put there. SHA-256 is a parameter.
module Ubifs {
  import opened Buffers
  import opened Arithmetic
  import opened Wrappers
  import opened Bytes
  import Crc32

  type RawDigest = s: seq<byte> | |s| == 32 witness Zeros(32)

  const UBIFS_MAGIC := 0x06101831
  const INO_NODE: byte := 0
  const PAD_NODE: byte := 5
  const SB_NODE: byte := 6

  datatype Error = NotUbifs | NodePastEnd | OutOfRange

  function CrcBytes(s: seq<byte>): (b: seq<byte>)
    ensures |b| == 4
  {
    Crc32.Octets(Crc32.LittleEndian(Crc32.UbifsCrc(Crc32.BitVectors(s))))
  }

  function RoundUp8(n: nat): nat {
    (n + 7) / 8 * 8
  }

  /* -------- The walk -------- */

  // An inode's atime and ctime set to its mtime, seconds and then nanoseconds, and its CRC recomputed.
  function FixInode(s: seq<byte>, at: nat, len: nat): (r: seq<byte>)
    requires at + 92 <= |s| && 8 <= len && at + len <= |s|
    ensures |r| == |s|
  {
    var s1 := Splice(s, at + 56, s[at + 72..at + 80]);
    var s2 := Splice(s1, at + 64, s1[at + 72..at + 80]);
    var s3 := Splice(s2, at + 80, s2[at + 88..at + 92]);
    var s4 := Splice(s3, at + 84, s3[at + 88..at + 92]);
    Splice(s4, at + 4, CrcBytes(s4[at + 8..at + len]))
  }

  predicate IsNode(s: seq<byte>, start: nat, leb: nat, at: nat) {
    at + 24 <= start + leb && at + 24 <= |s| && U32(s, at) == UBIFS_MAGIC
  }

  // Where the next node is looked for, if the walk may go on from this one.
  function Next(s: seq<byte>, at: nat): (r: Option<nat>)
    requires at + 24 <= |s|
    ensures r.Some? ==> r.value >= at + 24
  {
    var len := U32(s, at + 16);
    if len < 24 || at + len > |s| then None
    else if s[at + 20] == INO_NODE && at + 92 > |s| then None
    else if s[at + 20] == PAD_NODE then
      if at + 28 > |s| then None else Some(at + len + U32(s, at + 24))
    else Some(at + RoundUp8(len))
  }

  function Left(start: nat, leb: nat, at: nat): nat {
    if at < start + leb then start + leb - at else 0
  }

  // The image after the walk from a position in the LEB at start, over the rest of the image; None where it throws.
  function Walk(s: seq<byte>, leb: nat, start: nat, at: nat): Option<seq<byte>>
    requires leb > 0
    decreases Left(0, |s|, start), Left(start, leb, at)
  {
    if start >= |s| then Some(s)
    else if IsNode(s, start, leb, at) then
      match Next(s, at)
      case None => None
      case Some(next) =>
        var s' := if s[at + 20] == INO_NODE then FixInode(s, at, U32(s, at + 16)) else s;
        Walk(s', leb, start, next)
    else Walk(s, leb, start + leb, start + leb)
  }

  // The image with neither a UUID nor the superblock's CRC.
  function Blank(s: seq<byte>): (r: seq<byte>)
    requires |s| >= 124
    ensures |r| == |s|
  {
    Splice(Splice(s, 108, Zeros(16)), 4, Zeros(4))
  }

  // The UUID taken from the blank image, version 4 in form.
  function Uuid(h: seq<byte> -> RawDigest, blank: seq<byte>): (u: seq<byte>)
    ensures |u| == 16
  {
    var d := h(blank)[..16];
    var u := d[6 := d[6] % 16 + 0x40];
    u[8 := u[8] % 64 + 0x80]
  }

  function Finish(h: seq<byte> -> RawDigest, s: seq<byte>, sb: nat): (r: seq<byte>)
    requires |s| >= 124 && 24 <= sb <= |s|
    ensures |r| == |s|
  {
    var t := Splice(Blank(s), 108, Uuid(h, Blank(s)));
    Splice(t, 4, CrcBytes(t[8..sb]))
  }

  predicate Starts(s: seq<byte>, leb: nat) {
    leb > 0 && |s| % leb == 0 && |s| >= 21 && U32(s, 0) == UBIFS_MAGIC && s[20] == SB_NODE
  }

  // What pinUbifs makes of an image; None where it throws.
  function Pin(h: seq<byte> -> RawDigest, image: seq<byte>, leb: nat): Option<seq<byte>> {
    if !Starts(image, leb) then None else
      match Walk(image, leb, 0, 0)
      case None => None
      case Some(s) =>
        if |s| < 124 || U32(s, 16) < 24 || U32(s, 16) > |s| then None else Some(Finish(h, s, U32(s, 16)))
  }

  /* -------- The code, in place -------- */

  method Seal(out: array<byte>, at: nat, len: nat)
    requires 8 <= len && at + len <= out.Length
    modifies out
    ensures out[..] == Splice(old(out[..]), at + 4, CrcBytes(old(out[..])[at + 8..at + len]))
  {
    var bytes := out[at + 8..at + len];
    assert bytes == out[..][at + 8..at + len];
    var crc := Crc32.FeedLoop(Crc32.BitVectors(bytes));
    Overwrite(out, at + 4, Crc32.Octets(Crc32.LittleEndian(crc)));
  }

  method PinInode(out: array<byte>, at: nat, len: nat)
    requires at + 92 <= out.Length && 8 <= len && at + len <= out.Length
    modifies out
    ensures out[..] == FixInode(old(out[..]), at, len)
  {
    hide Splice;
    Overwrite(out, at + 56, out[..][at + 72..at + 80]);
    Overwrite(out, at + 64, out[..][at + 72..at + 80]);
    Overwrite(out, at + 80, out[..][at + 88..at + 92]);
    Overwrite(out, at + 84, out[..][at + 88..at + 92]);
    Seal(out, at, len);
  }

  // One node of the walk.
  method PinNode(out: array<byte>, at: nat) returns (next: Option<nat>)
    requires at + 24 <= out.Length
    modifies out
    ensures next == Next(old(out[..]), at)
    ensures next.Some? ==> next.value >= at + 24
    ensures next.Some? ==> var s := old(out[..]);
              out[..] == if s[at + 20] == INO_NODE then FixInode(s, at, U32(s, at + 16)) else s
  {
    hide FixInode;
    ghost var s := out[..];
    var len := U32(out[..], at + 16);
    if len < 24 || at + len > out.Length {
      return None;
    }
    var kind := out[at + 20];
    if kind == INO_NODE {
      if at + 92 > out.Length {
        return None;
      }
      PinInode(out, at, len);
    }
    if kind == PAD_NODE {
      if at + 28 > out.Length {
        return None;
      }
      next := Some(at + len + U32(out[..], at + 24));
    } else {
      next := Some(at + RoundUp8(len));
    }
  }

  method PinUbifs(h: seq<byte> -> RawDigest, image: seq<byte>, leb: nat) returns (r: Result<array<byte>, Error>)
    ensures r.Ok? <==> Pin(h, image, leb).Some?
    ensures r.Ok? ==> fresh(r.value) && Some(r.value[..]) == Pin(h, image, leb)
  {
    hide Walk, Blank, Uuid, Next, FixInode;
    var out := new byte[|image|](i requires 0 <= i < |image| => image[i]);
    assert out[..] == image;
    if leb == 0 || |image| % leb != 0 || |image| < 21 || U32(image, 0) != UBIFS_MAGIC || image[20] != SB_NODE {
      return Err(NotUbifs);
    }
    var ok := PinNodes(out, leb);
    if !ok {
      return Err(NodePastEnd);
    }
    ghost var s := out[..];
    if out.Length < 124 {
      return Err(OutOfRange);
    }
    var sb := U32(out[..], 16);
    if sb < 24 || sb > out.Length {
      return Err(NodePastEnd);
    }
    PinSuperblock(h, out, sb);
    r := Ok(out);
  }

  method PinSuperblock(h: seq<byte> -> RawDigest, out: array<byte>, sb: nat)
    requires out.Length >= 124 && 24 <= sb <= out.Length
    modifies out
    ensures out[..] == Finish(h, old(out[..]), sb)
  {
    hide Splice, Uuid, CrcBytes;
    Overwrite(out, 108, Zeros(16));
    Overwrite(out, 4, Zeros(4));
    var uuid := MakeUuid(h, out[..]);
    Overwrite(out, 108, uuid);
    Seal(out, 0, sb);
  }

  method MakeUuid(h: seq<byte> -> RawDigest, blank: seq<byte>) returns (uuid: seq<byte>)
    ensures uuid == Uuid(h, blank)
  {
    uuid := h(blank)[..16];
    uuid := uuid[6 := uuid[6] % 16 + 0x40];
    uuid := uuid[8 := uuid[8] % 64 + 0x80];
  }

  method PinNodes(out: array<byte>, leb: nat) returns (ok: bool)
    requires leb > 0
    modifies out
    ensures ok <==> Walk(old(out[..]), leb, 0, 0).Some?
    ensures ok ==> Some(out[..]) == Walk(old(out[..]), leb, 0, 0)
  {
    hide Next, FixInode;
    ghost var whole := Walk(out[..], leb, 0, 0);
    var start := 0;
    while start < out.Length
      invariant 0 <= start
      invariant whole == Walk(out[..], leb, start, start)
      decreases out.Length - start
    {
      ok := PinLeb(out, leb, start);
      if !ok {
        return;
      }
      start := start + leb;
    }
    ok := true;
  }

  // The nodes of one LEB.
  method PinLeb(out: array<byte>, leb: nat, start: nat) returns (ok: bool)
    requires leb > 0 && start < out.Length
    modifies out
    ensures ok ==> Walk(old(out[..]), leb, start, start) == Walk(out[..], leb, start + leb, start + leb)
    ensures !ok ==> Walk(old(out[..]), leb, start, start).None?
  {
    hide Next, FixInode;
    ghost var whole := Walk(out[..], leb, start, start);
    var at := start;
    while IsNode(out[..], start, leb, at)
      invariant start <= at
      invariant whole == Walk(out[..], leb, start, at)
      decreases Left(start, leb, at)
    {
      var next := PinNode(out, at);
      if next.None? {
        return false;
      }
      at := next.value;
    }
    ok := true;
  }

  /* -------- Well-formed images -------- */

  datatype Inode = Inode(at: nat, len: nat)

  // An inode that holds its times, or a padding node that holds its length, inside its own LEB; other nodes may have
  // any length the walk accepts.
  predicate WellFormedNode(s: seq<byte>, end: nat, at: nat)
    requires at + 24 <= |s|
  {
    var len := U32(s, at + 16);
    && Next(s, at).Some?
    && (s[at + 20] == INO_NODE ==> len >= 92 && at + len <= end)
    && (s[at + 20] == PAD_NODE ==> len >= 28 && at + 28 <= end)
  }

  // The inodes of a well-formed image from a position on; None where a node is not well-formed.
  function Scan(s: seq<byte>, leb: nat, start: nat, at: nat): Option<seq<Inode>>
    requires leb > 0
    decreases Left(0, |s|, start), Left(start, leb, at)
  {
    if start >= |s| then Some([])
    else if IsNode(s, start, leb, at) then
      if !WellFormedNode(s, start + leb, at) then None else
        match Scan(s, leb, start, Next(s, at).value)
        case None => None
        case Some(rest) =>
          Some(if s[at + 20] == INO_NODE then [Inode(at, U32(s, at + 16))] + rest else rest)
    else Scan(s, leb, start + leb, start + leb)
  }

  // A superblock that holds its UUID, alone in the first LEB's start, and well-formed nodes.
  ghost predicate WellFormed(s: seq<byte>, leb: nat) {
    && Starts(s, leb) && |s| >= 124 && leb >= 124
    && U32(s, 16) >= 124 && U32(s, 16) <= leb
    && Scan(s, leb, 0, 0).Some?
  }

  // The bytes of an inode the rewrite replaces: its CRC, atime and ctime.
  predicate TimeOf(i: Inode, k: int) {
    i.at + 4 <= k < i.at + 8 || i.at + 56 <= k < i.at + 72 || i.at + 80 <= k < i.at + 88
  }

  ghost predicate Times(inodes: seq<Inode>, k: int) {
    exists i | 0 <= i < |inodes| :: TimeOf(inodes[i], k)
  }

  predicate SuperblockSeal(k: int) {
    4 <= k < 8 || 108 <= k < 124
  }

  // Inodes in ascending order, apart from one another and inside the image.
  ghost predicate Apart(inodes: seq<Inode>, from: nat, size: nat) {
    && (forall i | 0 <= i < |inodes| :: from <= inodes[i].at && inodes[i].len >= 92 && inodes[i].at + inodes[i].len <= size)
    && forall i, j | 0 <= i < j < |inodes| :: inodes[i].at + inodes[i].len <= inodes[j].at
  }

  lemma ApartCons(x: Inode, inodes: seq<Inode>, from: nat, size: nat)
    requires x.len >= 92 && x.at + x.len <= size && from <= x.at
    requires Apart(inodes, x.at + x.len, size)
    ensures Apart([x] + inodes, from, size)
  {
    var all := [x] + inodes;
    assert forall i | 1 <= i < |all| :: all[i] == inodes[i - 1];
  }

  lemma ApartFrom(inodes: seq<Inode>, from: nat, lower: nat, size: nat)
    requires Apart(inodes, from, size) && lower <= from
    ensures Apart(inodes, lower, size)
  {
  }

  lemma RoundUp8Covers(n: nat)
    ensures n <= RoundUp8(n)
  {
  }

  lemma NextAfter(s: seq<byte>, end: nat, at: nat)
    requires at + 24 <= |s| && WellFormedNode(s, end, at)
    ensures Next(s, at).value >= at + U32(s, at + 16)
  {
    RoundUp8Covers(U32(s, at + 16));
  }

  lemma {:induction false} ScanIsApart(s: seq<byte>, leb: nat, start: nat, at: nat)
    requires leb > 0 && Whole(|s|, leb, start) && Scan(s, leb, start, at).Some?
    ensures Apart(Scan(s, leb, start, at).value, Min(at, start + leb), |s|)
    decreases Left(0, |s|, start), Left(start, leb, at)
  {
    hide Next, U32;
    if start >= |s| {
    } else if IsNode(s, start, leb, at) {
      var next := Next(s, at).value;
      NextAfter(s, start + leb, at);
      ScanIsApart(s, leb, start, next);
      var rest := Scan(s, leb, start, next).value;
      if s[at + 20] == INO_NODE {
        var x := Inode(at, U32(s, at + 16));
        ApartFrom(rest, Min(next, start + leb), x.at + x.len, |s|);
        ApartCons(x, rest, Min(at, start + leb), |s|);
      }
    } else {
      ScanIsApart(s, leb, start + leb, start + leb);
    }
  }

  // What is left of the image from start on is whole LEBs.
  ghost predicate Whole(size: nat, leb: nat, start: nat)
    requires leb > 0
    decreases Left(0, size, start)
  {
    start >= size || (start + leb <= size && Whole(size, leb, start + leb))
  }

  lemma {:induction false} WholeLebs(size: nat, leb: nat, start: nat)
    requires leb > 0 && start <= size && (size - start) % leb == 0
    ensures Whole(size, leb, start)
    decreases size - start
  {
    if start < size {
      OneLeb(size - start, leb);
      WholeLebs(size, leb, start + leb);
    }
  }

  lemma OneLeb(n: nat, leb: nat)
    requires leb > 0 && n > 0 && n % leb == 0
    ensures n >= leb && (n - leb) % leb == 0
  {
    var q, q', r := n / leb, (n - leb) / leb, (n - leb) % leb;
    assert n >= leb;
    var d := q - q' - 1;
    assert d * leb == r by {
      assert n == q * leb && n - leb == q' * leb + r;
      assert (q - q' - 1) * leb == q * leb - q' * leb - leb;
    }
    SmallMultiple(d, leb, r);
  }

  lemma SmallMultiple(d: int, leb: nat, r: nat)
    requires d * leb == r < leb
    ensures r == 0
  {
    assert d >= 1 ==> d * leb >= leb;
  }

  /* -------- The walk sees only what the rewrite leaves alone -------- */

  lemma U32Agrees(s: seq<byte>, t: seq<byte>, at: nat)
    requires at + 4 <= |s| && at + 4 <= |t|
    requires forall k | at <= k < at + 4 :: s[k] == t[k]
    ensures U32(s, at) == U32(t, at)
  {
  }

  // Two images that agree on the header of a node, and on the length of padding, agree on the node.
  lemma NodeAgrees(s: seq<byte>, t: seq<byte>, start: nat, leb: nat, at: nat)
    requires |s| == |t| && at + 24 <= |s|
    requires forall k | at <= k < at + 24 && (k < at + 4 || k >= at + 16) :: s[k] == t[k]
    requires s[at + 20] == PAD_NODE && at + 28 <= |s| ==> forall k | at + 24 <= k < at + 28 :: s[k] == t[k]
    ensures IsNode(s, start, leb, at) == IsNode(t, start, leb, at)
    ensures Next(s, at) == Next(t, at)
    ensures U32(s, at + 16) == U32(t, at + 16) && s[at + 20] == t[at + 20]
    ensures WellFormedNode(s, start + leb, at) == WellFormedNode(t, start + leb, at)
  {
    hide U32;
    U32Agrees(s, t, at);
    U32Agrees(s, t, at + 16);
    if s[at + 20] == PAD_NODE && at + 28 <= |s| {
      U32Agrees(s, t, at + 24);
    }
  }

  // Agreement from a position on, but for the times of some inodes.
  ghost predicate AgreeFrom(s: seq<byte>, t: seq<byte>, from: nat, inodes: seq<Inode>) {
    |s| == |t| && forall k | from <= k < |s| && !Times(inodes, k) :: s[k] == t[k]
  }

  lemma TimesOfLater(inodes: seq<Inode>, from: nat, size: nat, k: int)
    requires Apart(inodes, from, size) && k < from
    ensures !Times(inodes, k)
  {
  }

  lemma TimesCons(x: Inode, inodes: seq<Inode>, k: int)
    ensures Times([x] + inodes, k) <==> TimeOf(x, k) || Times(inodes, k)
  {
    var all := [x] + inodes;
    if TimeOf(x, k) {
      assert TimeOf(all[0], k);
    }
    if i :| 0 <= i < |inodes| && TimeOf(inodes[i], k) {
      assert all[i + 1] == inodes[i];
    }
    if i :| 0 <= i < |all| && TimeOf(all[i], k) {
      assert i > 0 ==> all[i] == inodes[i - 1];
    }
  }

  // Images that differ only in the times of the inodes of one have the same inodes.
  lemma {:induction false} ScanAgrees(s: seq<byte>, t: seq<byte>, leb: nat, start: nat, at: nat)
    requires leb > 0 && Whole(|s|, leb, start) && Scan(s, leb, start, at).Some?
    requires AgreeFrom(s, t, Min(at, start + leb), Scan(s, leb, start, at).value)
    ensures Scan(t, leb, start, at) == Scan(s, leb, start, at)
    decreases Left(0, |s|, start), Left(start, leb, at)
  {
    hide Next, U32, Times, WellFormedNode, Apart;
    if start < |s| {
      if IsNode(s, start, leb, at) {
        ScanAgreesAtNode(s, t, leb, start, at);
        ScanAgrees(s, t, leb, start, Next(s, at).value);
      } else {
        ScanAgreesAtEnd(s, t, leb, start, at);
        ScanAgrees(s, t, leb, start + leb, start + leb);
      }
    }
  }

  lemma ScanAgreesAtEnd(s: seq<byte>, t: seq<byte>, leb: nat, start: nat, at: nat)
    requires leb > 0 && Whole(|s|, leb, start) && start < |s| && Scan(s, leb, start, at).Some?
    requires AgreeFrom(s, t, Min(at, start + leb), Scan(s, leb, start, at).value)
    requires !IsNode(s, start, leb, at)
    ensures !IsNode(t, start, leb, at) && Scan(s, leb, start + leb, start + leb).Some?
    ensures AgreeFrom(s, t, start + leb, Scan(s, leb, start + leb, start + leb).value)
  {
    hide U32, Times;
    var rest := Scan(s, leb, start + leb, start + leb).value;
    ScanIsApart(s, leb, start + leb, start + leb);
    if at + 24 <= start + leb && at + 24 <= |s| {
      forall k | at <= k < at + 4 ensures s[k] == t[k] {
        TimesOfLater(rest, start + leb, |s|, k);
      }
      U32Agrees(s, t, at);
    }
  }

  // The times still to come after a node are those to come at it, but for its own.
  lemma TimesAfterNode(s: seq<byte>, leb: nat, start: nat, at: nat, k: nat)
    requires leb > 0 && start < |s| && IsNode(s, start, leb, at) && Scan(s, leb, start, at).Some?
    ensures Next(s, at).Some? && Scan(s, leb, start, Next(s, at).value).Some?
    ensures Times(Scan(s, leb, start, at).value, k)
            <==> (s[at + 20] == INO_NODE && TimeOf(Inode(at, U32(s, at + 16)), k)) || Times(Scan(s, leb, start, Next(s, at).value).value, k)
  {
    hide Times, U32, Next;
    TimesCons(Inode(at, U32(s, at + 16)), Scan(s, leb, start, Next(s, at).value).value, k);
  }

  lemma ScanAgreesAtNode(s: seq<byte>, t: seq<byte>, leb: nat, start: nat, at: nat)
    requires leb > 0 && Whole(|s|, leb, start) && start < |s| && Scan(s, leb, start, at).Some?
    requires AgreeFrom(s, t, Min(at, start + leb), Scan(s, leb, start, at).value)
    requires IsNode(s, start, leb, at)
    ensures IsNode(t, start, leb, at) && WellFormedNode(s, start + leb, at) && WellFormedNode(t, start + leb, at)
    ensures Next(t, at) == Next(s, at) && U32(s, at + 16) == U32(t, at + 16) && s[at + 20] == t[at + 20]
    ensures Next(s, at).Some? && Scan(s, leb, start, Next(s, at).value).Some?
    ensures AgreeFrom(s, t, Min(Next(s, at).value, start + leb), Scan(s, leb, start, Next(s, at).value).value)
  {
    hide U32, Times, Next, WellFormedNode, Apart;
    TimesAfterNode(s, leb, start, at, 0);
    var from, rest := Min(Next(s, at).value, start + leb), Scan(s, leb, start, Next(s, at).value).value;
    ScanIsApart(s, leb, start, Next(s, at).value);
    NodeReaches(s, start + leb, at);
    hide Scan, IsNode;
    forall k | at <= k < from && !(s[at + 20] == INO_NODE && TimeOf(Inode(at, U32(s, at + 16)), k)) ensures s[k] == t[k] {
      TimesAfterNode(s, leb, start, at, k);
      TimesOfLater(rest, from, |s|, k);
    }
    NodeAgrees(s, t, start, leb, at);
    forall k | from <= k < |s| && !Times(rest, k) ensures s[k] == t[k] {
      TimesAfterNode(s, leb, start, at, k);
    }
  }

  // A well-formed node's header, and padding's length, end before the next node and the end of the LEB.
  lemma NodeReaches(s: seq<byte>, end: nat, at: nat)
    requires at + 24 <= |s| && at + 24 <= end && WellFormedNode(s, end, at)
    ensures Min(Next(s, at).value, end) >= at + 24
    ensures s[at + 20] == PAD_NODE ==> Min(Next(s, at).value, end) >= at + 28
    ensures s[at + 20] == INO_NODE ==> Min(Next(s, at).value, end) >= at + U32(s, at + 16) >= at + 92
  {
    NextAfter(s, end, at);
  }

  /* -------- The rewrite of one inode -------- */

  // The node with its mtime in place of its atime and ctime.
  function Timed(n: seq<byte>): (t: seq<byte>)
    requires |n| >= 92
    ensures |t| == |n|
    ensures forall k | 0 <= k < |n| ::
              t[k] == n[if 56 <= k < 64 then k + 16 else if 64 <= k < 72 then k + 8
                        else if 80 <= k < 84 then k + 8 else if 84 <= k < 88 then k + 4 else k]
  {
    n[..56] + n[72..80] + n[72..80] + n[72..80] + n[88..92] + n[88..92] + n[88..]
  }

  // And with the CRC of the result.
  function Fixed(n: seq<byte>): (r: seq<byte>)
    requires |n| >= 92
    ensures |r| == |n|
  {
    Splice(Timed(n), 4, CrcBytes(Timed(n)[8..]))
  }

  // Exactly what the rewrite leaves in a node: equal times, a valid CRC, and every other byte as it was.
  ghost predicate NodeSealed(n: seq<byte>, r: seq<byte>) {
    && |r| == |n| >= 92
    && r[4..8] == CrcBytes(r[8..])
    && r[56..64] == r[64..72] == r[72..80] == n[72..80]
    && r[80..84] == r[84..88] == r[88..92] == n[88..92]
    && forall k | 0 <= k < |n| && !TimeOf(Inode(0, |n|), k) :: r[k] == n[k]
  }

  lemma FixedIs(n: seq<byte>)
    requires |n| >= 92
    ensures NodeSealed(n, Fixed(n))
  {
    hide CrcBytes, Timed;
    var r, t := Fixed(n), Timed(n);
    assert r[8..] == t[8..];
    assert r[56..64] == n[72..80] && r[64..72] == n[72..80] && r[72..80] == n[72..80];
    assert r[80..84] == n[88..92] && r[84..88] == n[88..92] && r[88..92] == n[88..92];
  }

  lemma FixedAgrees(m: seq<byte>, n: seq<byte>)
    requires |m| == |n| >= 92
    requires forall k | 0 <= k < |m| && !TimeOf(Inode(0, |m|), k) :: m[k] == n[k]
    ensures Fixed(m) == Fixed(n)
  {
    hide CrcBytes;
    hide Timed;
    var a, b := Timed(m), Timed(n);
    assert a[8..] == b[8..];
    assert Fixed(m) == Fixed(n);
  }

  lemma SpliceInside(s: seq<byte>, at: nat, n: seq<byte>, offset: nat, b: seq<byte>)
    requires at + |n| <= |s| && offset + |b| <= |n|
    ensures Splice(Splice(s, at, n), at + offset, b) == Splice(s, at, Splice(n, offset, b))
  {
    assert forall k | 0 <= k < |s| ::
        Splice(Splice(s, at, n), at + offset, b)[k] == Splice(s, at, Splice(n, offset, b))[k];
  }

  lemma SliceOfSplice(s: seq<byte>, at: nat, n: seq<byte>, i: nat, j: nat)
    requires at + |n| <= |s| && i <= j <= |n|
    ensures Splice(s, at, n)[at + i..at + j] == n[i..j]
  {
  }

  // The four copies, in a node by itself.
  lemma TimedInFour(n: seq<byte>)
    requires |n| >= 92
    ensures var n1 := Splice(n, 56, n[72..80]);
            var n2 := Splice(n1, 64, n1[72..80]);
            var n3 := Splice(n2, 80, n2[88..92]);
            Splice(n3, 84, n3[88..92]) == Timed(n)
  {
    hide Timed;
    var n1 := Splice(n, 56, n[72..80]);
    var n2 := Splice(n1, 64, n1[72..80]);
    assert forall k | 0 <= k < |n| :: n2[k] == n[if 56 <= k < 64 then k + 16 else if 64 <= k < 72 then k + 8 else k];
    var n3 := Splice(n2, 80, n2[88..92]);
    var n4 := Splice(n3, 84, n3[88..92]);
    assert forall k | 0 <= k < |n| :: n4[k] == Timed(n)[k];
  }

  // The code's five writes are the rewrite of the node, where the node holds its times.
  lemma FixInodeIsFixed(s: seq<byte>, at: nat, len: nat)
    requires 92 <= len && at + len <= |s|
    ensures FixInode(s, at, len) == Splice(s, at, Fixed(s[at..at + len]))
  {
    var n := s[at..at + len];
    assert Splice(s, at, n) == s;
    hide CrcBytes, Timed, Splice;
    var n1 := Splice(n, 56, n[72..80]);
    SliceOfSplice(s, at, n, 72, 80);
    SpliceInside(s, at, n, 56, n[72..80]);
    var n2 := Splice(n1, 64, n1[72..80]);
    SliceOfSplice(s, at, n1, 72, 80);
    SpliceInside(s, at, n1, 64, n1[72..80]);
    var n3 := Splice(n2, 80, n2[88..92]);
    SliceOfSplice(s, at, n2, 88, 92);
    SpliceInside(s, at, n2, 80, n2[88..92]);
    var n4 := Splice(n3, 84, n3[88..92]);
    SliceOfSplice(s, at, n3, 88, 92);
    SpliceInside(s, at, n3, 84, n3[88..92]);
    SliceOfSplice(s, at, n4, 8, len);
    assert n4[8..len] == n4[8..];
    SpliceInside(s, at, n4, 4, CrcBytes(n4[8..]));
    TimedInFour(n);
  }

  function NodeOf(s: seq<byte>, x: Inode): (n: seq<byte>)
    requires x.at + x.len <= |s|
    ensures |n| == x.len
  {
    s[x.at..x.at + x.len]
  }

  // The rewrite of every inode, in order.
  function FixAll(s: seq<byte>, inodes: seq<Inode>): (r: seq<byte>)
    ensures |r| == |s|
    decreases |inodes|
  {
    if inodes == [] || inodes[0].len < 92 || inodes[0].at + inodes[0].len > |s| then s
    else FixAll(FixOne(s, inodes[0]), inodes[1..])
  }

  function FixOne(s: seq<byte>, x: Inode): (r: seq<byte>)
    requires x.len >= 92 && x.at + x.len <= |s|
    ensures |r| == |s|
  {
    Splice(s, x.at, Fixed(s[x.at..x.at + x.len]))
  }

  lemma ApartTail(inodes: seq<Inode>, size: nat)
    requires Apart(inodes, 0, size) && inodes != []
    ensures Apart(inodes[1..], 0, size)
    ensures Apart(inodes[1..], inodes[0].at + inodes[0].len, size)
    ensures inodes[0].len >= 92 && inodes[0].at + inodes[0].len <= size
  {
    assert forall i | 0 <= i < |inodes| - 1 :: inodes[1..][i] == inodes[i + 1];
  }

  // On a well-formed image the walk rewrites exactly the inodes scanned.
  lemma {:induction false} WalkIsFixAll(s: seq<byte>, leb: nat, start: nat, at: nat)
    requires leb > 0 && Whole(|s|, leb, start) && Scan(s, leb, start, at).Some?
    ensures Walk(s, leb, start, at) == Some(FixAll(s, Scan(s, leb, start, at).value))
    decreases Left(0, |s|, start), Left(start, leb, at)
  {
    hide Next, U32, FixInode, WellFormedNode;
    if start >= |s| {
    } else if !IsNode(s, start, leb, at) {
      WalkIsFixAll(s, leb, start + leb, start + leb);
    } else {
      NodeIsWellFormed(s, leb, start, at);
      var next := Next(s, at).value;
      hide FixAll, IsNode;
      if s[at + 20] != INO_NODE {
        WalkIsFixAll(s, leb, start, next);
      } else {
        WalkAtInode(s, leb, start, at);
        WalkIsFixAll(FixInode(s, at, U32(s, at + 16)), leb, start, next);
      }
    }
  }

  lemma NodeIsWellFormed(s: seq<byte>, leb: nat, start: nat, at: nat)
    requires leb > 0 && start < |s| && IsNode(s, start, leb, at) && Scan(s, leb, start, at).Some?
    ensures WellFormedNode(s, start + leb, at) && Next(s, at).Some? && Scan(s, leb, start, Next(s, at).value).Some?
    ensures Next(s, at).value >= at + 24
    ensures s[at + 20] == INO_NODE ==> var len := U32(s, at + 16); 92 <= len && at + len <= |s|
    ensures Scan(s, leb, start, at).value
         == (if s[at + 20] == INO_NODE then [Inode(at, U32(s, at + 16))] else []) + Scan(s, leb, start, Next(s, at).value).value
  {
    hide U32;
    assert [] + Scan(s, leb, start, Next(s, at).value).value == Scan(s, leb, start, Next(s, at).value).value;
  }

  lemma WalkAtInode(s: seq<byte>, leb: nat, start: nat, at: nat)
    requires leb > 0 && Whole(|s|, leb, start) && start < |s| && Scan(s, leb, start, at).Some?
    requires IsNode(s, start, leb, at) && s[at + 20] == INO_NODE
    ensures Next(s, at).Some? && at + 92 <= |s| && 92 <= U32(s, at + 16) && at + U32(s, at + 16) <= |s|
    ensures Scan(s, leb, start, Next(s, at).value).Some?
    ensures var fixed := FixInode(s, at, U32(s, at + 16));
            && Scan(fixed, leb, start, Next(s, at).value) == Scan(s, leb, start, Next(s, at).value)
            && FixAll(s, Scan(s, leb, start, at).value) == FixAll(fixed, Scan(s, leb, start, Next(s, at).value).value)
  {
    NodeIsWellFormed(s, leb, start, at);
    ScanPastInode(s, leb, start, at);
    FixInodeIsOne(s, at, U32(s, at + 16));
    hide U32, Next, WellFormedNode, Scan, IsNode, FixInode, FixAll;
    FixAllCons(s, Inode(at, U32(s, at + 16)), Scan(s, leb, start, Next(s, at).value).value);
  }

  lemma FixInodeIsOne(s: seq<byte>, at: nat, len: nat)
    requires 92 <= len && at + len <= |s|
    ensures FixInode(s, at, len) == FixOne(s, Inode(at, len))
  {
    hide FixInode, Splice, Fixed;
    FixInodeIsFixed(s, at, len);
  }

  // Rewriting an inode changes nothing after it.
  lemma ScanPastInode(s: seq<byte>, leb: nat, start: nat, at: nat)
    requires leb > 0 && Whole(|s|, leb, start) && start < |s| && Scan(s, leb, start, at).Some?
    requires IsNode(s, start, leb, at) && s[at + 20] == INO_NODE
    requires Next(s, at).Some? && Scan(s, leb, start, Next(s, at).value).Some?
    requires 92 <= U32(s, at + 16) && at + U32(s, at + 16) <= |s|
    ensures Scan(FixInode(s, at, U32(s, at + 16)), leb, start, Next(s, at).value) == Scan(s, leb, start, Next(s, at).value)
  {
    hide U32, Scan, IsNode, FixInode;
    var len, next := U32(s, at + 16), Next(s, at).value;
    InodeReaches(s, leb, start, at);
    FixInodeIsOne(s, at, len);
    hide Next, Splice, AgreeFrom, Fixed;
    SpliceAgrees(s, at, Fixed(s[at..at + len]), Min(next, start + leb), Scan(s, leb, start, next).value);
    ScanAgrees(s, FixInode(s, at, len), leb, start, next);
  }

  lemma InodeReaches(s: seq<byte>, leb: nat, start: nat, at: nat)
    requires leb > 0 && start < |s| && Scan(s, leb, start, at).Some?
    requires IsNode(s, start, leb, at) && s[at + 20] == INO_NODE && Next(s, at).Some?
    ensures Min(Next(s, at).value, start + leb) >= at + U32(s, at + 16)
  {
    hide U32, Next;
    NodeReaches(s, start + leb, at);
  }

  lemma SpliceAgrees(s: seq<byte>, at: nat, b: seq<byte>, from: nat, inodes: seq<Inode>)
    requires at + |b| <= |s| && at + |b| <= from
    ensures AgreeFrom(s, Splice(s, at, b), from, inodes)
  {
  }

  lemma FixAllCons(s: seq<byte>, x: Inode, rest: seq<Inode>)
    requires 92 <= x.len && x.at + x.len <= |s|
    ensures FixAll(s, [x] + rest) == FixAll(FixOne(s, x), rest)
  {
    hide FixOne;
    assert ([x] + rest)[1..] == rest;
  }

  /* -------- What the rewrite of every inode leaves -------- */

  lemma FixOneIs(s: seq<byte>, x: Inode)
    requires x.len >= 92 && x.at + x.len <= |s|
    ensures FixOne(s, x)[x.at..x.at + x.len] == Fixed(s[x.at..x.at + x.len])
    ensures forall k | 0 <= k < |s| && !TimeOf(x, k) :: FixOne(s, x)[k] == s[k]
  {
    hide Fixed;
    var n := s[x.at..x.at + x.len];
    FixedIs(n);
    hide CrcBytes;
    forall k | 0 <= k < |s| && !TimeOf(x, k) ensures FixOne(s, x)[k] == s[k] {
      if x.at <= k < x.at + x.len {
        assert !TimeOf(Inode(0, |n|), k - x.at);
        assert Fixed(n)[k - x.at] == n[k - x.at];
      }
    }
  }

  // No byte of the image changes but the times and CRCs of the inodes.
  lemma {:induction false} FixAllFrame(s: seq<byte>, inodes: seq<Inode>, k: nat)
    requires Apart(inodes, 0, |s|) && k < |s| && !Times(inodes, k)
    ensures FixAll(s, inodes)[k] == s[k]
    decreases |inodes|
  {
    hide FixOne, Apart;
    if inodes != [] {
      ApartTail(inodes, |s|);
      FixOneIs(s, inodes[0]);
      TimesCons(inodes[0], inodes[1..], k);
      assert [inodes[0]] + inodes[1..] == inodes;
      FixAllFrame(FixOne(s, inodes[0]), inodes[1..], k);
    }
  }

  // Each inode is left as the rewrite of what it was, whatever came before it.
  lemma {:induction false} FixAllFixes(s: seq<byte>, inodes: seq<Inode>, i: nat)
    requires Apart(inodes, 0, |s|) && i < |inodes|
    ensures inodes[i].len >= 92 && inodes[i].at + inodes[i].len <= |s|
    ensures NodeOf(FixAll(s, inodes), inodes[i]) == Fixed(NodeOf(s, inodes[i]))
    decreases |inodes|
  {
    hide FixOne, Fixed, Times;
    var x, first, rest := inodes[i], inodes[0], inodes[1..];
    ApartTail(inodes, |s|);
    var fixed := FixOne(s, first);
    FixOneIs(s, first);
    if i == 0 {
      forall k: nat | first.at <= k < first.at + first.len ensures FixAll(fixed, rest)[k] == fixed[k] {
        TimesOfLater(rest, first.at + first.len, |s|, k);
        FixAllFrame(fixed, rest, k);
      }
      SameSlice(FixAll(fixed, rest), fixed, first.at, first.len);
    } else {
      FixAllFixes(fixed, rest, i - 1);
      hide FixAll;
      assert forall k | x.at <= k < x.at + x.len :: !TimeOf(first, k);
      SameSlice(fixed, s, x.at, x.len);
    }
  }

  lemma SameSlice(a: seq<byte>, b: seq<byte>, at: nat, len: nat)
    requires at + len <= |a| == |b|
    requires forall k | at <= k < at + len :: a[k] == b[k]
    ensures a[at..at + len] == b[at..at + len]
  {
  }

  // The bytes the clock and the randomness decide, in an image with the given inodes.
  ghost predicate Volatile(inodes: seq<Inode>, k: int) {
    SuperblockSeal(k) || Times(inodes, k)
  }

  ghost predicate AgreeBut(s: seq<byte>, t: seq<byte>, inodes: seq<Inode>) {
    |s| == |t| && forall k | 0 <= k < |s| && !Volatile(inodes, k) :: s[k] == t[k]
  }

  lemma TimesInside(inodes: seq<Inode>, from: nat, size: nat, i: nat, k: int)
    requires Apart(inodes, from, size) && i < |inodes|
    requires inodes[i].at <= k < inodes[i].at + inodes[i].len && !TimeOf(inodes[i], k)
    ensures !Times(inodes, k)
  {
    assert forall j | 0 <= j < |inodes| :: TimeOf(inodes[j], k) ==> inodes[j].at <= k < inodes[j].at + inodes[j].len;
  }

  lemma SlicesAgree(s: seq<byte>, t: seq<byte>, inodes: seq<Inode>, i: nat)
    requires Apart(inodes, 124, |s|) && AgreeBut(s, t, inodes) && i < |inodes|
    ensures var x := inodes[i]; Fixed(s[x.at..x.at + x.len]) == Fixed(t[x.at..x.at + x.len])
  {
    hide Fixed, Times;
    var x := inodes[i];
    var m, n := s[x.at..x.at + x.len], t[x.at..x.at + x.len];
    forall k | 0 <= k < |m| && !TimeOf(Inode(0, |m|), k) ensures m[k] == n[k] {
      TimesInside(inodes, 124, |s|, i, x.at + k);
      assert s[x.at + k] == t[x.at + k];
    }
    FixedAgrees(m, n);
  }

  // Images that differ only in volatile bytes differ only in the superblock's once every inode is rewritten.
  lemma FixAllAgrees(s: seq<byte>, t: seq<byte>, inodes: seq<Inode>)
    requires Apart(inodes, 124, |s|) && AgreeBut(s, t, inodes)
    ensures AgreeBut(FixAll(s, inodes), FixAll(t, inodes), [])
  {
    hide Times, FixAll, Fixed;
    ApartFrom(inodes, 124, 0, |s|);
    forall k: nat | k < |s| && !SuperblockSeal(k) ensures FixAll(s, inodes)[k] == FixAll(t, inodes)[k] {
      FixAllAgreesAt(s, t, inodes, k);
    }
  }

  lemma FixAllAgreesAt(s: seq<byte>, t: seq<byte>, inodes: seq<Inode>, k: nat)
    requires Apart(inodes, 124, |s|) && AgreeBut(s, t, inodes)
    requires k < |s| && !SuperblockSeal(k)
    ensures FixAll(s, inodes)[k] == FixAll(t, inodes)[k]
  {
    hide FixAll, Fixed, SuperblockSeal;
    ApartFrom(inodes, 124, 0, |s|);
    if i :| 0 <= i < |inodes| && TimeOf(inodes[i], k) {
      FixAllFixes(s, inodes, i);
      FixAllFixes(t, inodes, i);
      SlicesAgree(s, t, inodes, i);
      var x := inodes[i];
      assert FixAll(s, inodes)[x.at..x.at + x.len][k - x.at] == FixAll(t, inodes)[x.at..x.at + x.len][k - x.at];
    } else {
      FixAllFrame(s, inodes, k);
      FixAllFrame(t, inodes, k);
    }
  }

  /* -------- The superblock -------- */

  lemma BlankAgrees(s: seq<byte>, t: seq<byte>)
    requires |s| == |t| >= 124
    requires forall k | 0 <= k < |s| && !SuperblockSeal(k) :: s[k] == t[k]
    ensures Blank(s) == Blank(t)
  {
  }

  lemma SealFrame(t: seq<byte>, u: seq<byte>, c: seq<byte>)
    requires |t| >= 124 && |u| == 16 && |c| == 4
    ensures var r := Splice(Splice(Blank(t), 108, u), 4, c);
            && Blank(r) == Blank(t)
            && r[4..8] == c && r[8..] == Splice(Blank(t), 108, u)[8..] && r[108..124] == u
            && forall k | 0 <= k < |t| && !SuperblockSeal(k) :: r[k] == t[k]
  {
    var r := Splice(Splice(Blank(t), 108, u), 4, c);
    BlankAgrees(r, t);
  }

  // What the last step leaves: a UUID taken from the rest of the image, in version 4 form, under a valid CRC.
  ghost predicate SuperblockSealed(h: seq<byte> -> RawDigest, r: seq<byte>, sb: nat) {
    && 124 <= sb <= |r|
    && r[4..8] == CrcBytes(r[8..sb])
    && r[108..124] == Uuid(h, Blank(r))
    && r[108 + 6] / 16 == 4 && r[108 + 8] / 64 == 2
  }

  lemma UuidIsVersion4(h: seq<byte> -> RawDigest, blank: seq<byte>)
    ensures Uuid(h, blank)[6] / 16 == 4 && Uuid(h, blank)[8] / 64 == 2
  {
  }

  lemma FinishSeals(h: seq<byte> -> RawDigest, s: seq<byte>, sb: nat)
    requires 124 <= sb <= |s|
    ensures SuperblockSealed(h, Finish(h, s, sb), sb)
    ensures forall k | 0 <= k < |s| && !SuperblockSeal(k) :: Finish(h, s, sb)[k] == s[k]
  {
    hide Blank, CrcBytes, Splice;
    UuidIsVersion4(h, Blank(s));
    hide Uuid;
    var u := Uuid(h, Blank(s));
    var t := Splice(Blank(s), 108, u);
    SealFrame(s, u, CrcBytes(t[8..sb]));
    var r := Finish(h, s, sb);
    assert r[8..sb] == r[8..][..sb - 8] && t[8..sb] == t[8..][..sb - 8];
    assert r[108 + 6] == r[108..124][6] && r[108 + 8] == r[108..124][8];
  }

  /* -------- The whole image -------- */

  function Inodes(s: seq<byte>, leb: nat): (inodes: seq<Inode>)
    requires WellFormed(s, leb)
  {
    Scan(s, leb, 0, 0).value
  }

  // The inodes lie beyond the superblock and apart, and the whole rewrite is theirs and then the superblock's.
  lemma PinIs(h: seq<byte> -> RawDigest, s: seq<byte>, leb: nat)
    requires WellFormed(s, leb)
    ensures Apart(Inodes(s, leb), 124, |s|)
    ensures 124 <= U32(s, 16) <= |s|
    ensures Pin(h, s, leb) == Some(Finish(h, FixAll(s, Inodes(s, leb)), U32(s, 16)))
  {
    hide Finish, U32;
    WholeLebs(|s|, leb, 0);
    WalkIsFixAll(s, leb, 0, 0);
    hide Walk, FixAll;
    ScanFromSuperblock(s, leb);
    hide Scan;
    ApartFrom(Inodes(s, leb), Min(Next(s, 0).value, leb), 124, |s|);
    HeaderStands(s, Inodes(s, leb));
  }

  lemma ScanFromSuperblock(s: seq<byte>, leb: nat)
    requires WellFormed(s, leb)
    ensures Next(s, 0).Some? && Min(Next(s, 0).value, leb) >= 124 && leb <= |s|
    ensures Scan(s, leb, 0, 0) == Scan(s, leb, 0, Next(s, 0).value)
    ensures Apart(Inodes(s, leb), Min(Next(s, 0).value, leb), |s|)
  {
    hide U32;
    WholeLebs(|s|, leb, 0);
    NextAfter(s, leb, 0);
    ScanIsApart(s, leb, 0, Next(s, 0).value);
  }

  lemma HeaderStands(s: seq<byte>, inodes: seq<Inode>)
    requires |s| >= 124 && Apart(inodes, 124, |s|)
    ensures U32(FixAll(s, inodes), 16) == U32(s, 16)
  {
    hide Times, FixAll, U32;
    ApartFrom(inodes, 124, 0, |s|);
    forall k: nat | 16 <= k < 20 ensures FixAll(s, inodes)[k] == s[k] {
      TimesOfLater(inodes, 124, |s|, k);
      FixAllFrame(s, inodes, k);
    }
    U32Agrees(s, FixAll(s, inodes), 16);
  }

  // An image that differs from a well-formed one only in its volatile bytes is well-formed, with the same inodes.
  lemma WellFormedAgrees(s: seq<byte>, t: seq<byte>, leb: nat)
    requires WellFormed(s, leb) && AgreeBut(s, t, Inodes(s, leb))
    ensures WellFormed(t, leb) && Inodes(t, leb) == Inodes(s, leb) && U32(t, 16) == U32(s, 16)
  {
    hide Times, U32, Scan, Next, WellFormedNode;
    ScanFromSuperblock(s, leb);
    var inodes := Inodes(s, leb);
    var next := Next(s, 0).value;
    hide Apart;
    forall k: nat | k < 124 && !SuperblockSeal(k) ensures s[k] == t[k] {
      TimesOfLater(inodes, Min(next, leb), |s|, k);
    }
    U32Agrees(s, t, 0);
    U32Agrees(s, t, 16);
    NodeAgrees(s, t, 0, leb, 0);
    WholeLebs(|s|, leb, 0);
    ScanAgrees(s, t, leb, 0, next);
    ScanAtSuperblock(t, leb);
  }

  lemma ScanAtSuperblock(t: seq<byte>, leb: nat)
    requires leb >= 24 && |t| >= 24 && Starts(t, leb) && Next(t, 0).Some?
    ensures Scan(t, leb, 0, 0) == Scan(t, leb, 0, Next(t, 0).value)
  {
    hide U32;
  }

  // On a well-formed image nothing is refused, no byte changes but the volatile ones, and the inodes stay where they are.
  lemma PinFrame(h: seq<byte> -> RawDigest, s: seq<byte>, leb: nat)
    requires WellFormed(s, leb)
    ensures Pin(h, s, leb).Some?
    ensures AgreeBut(s, Pin(h, s, leb).value, Inodes(s, leb))
    ensures WellFormed(Pin(h, s, leb).value, leb) && Inodes(Pin(h, s, leb).value, leb) == Inodes(s, leb)
  {
    PinIs(h, s, leb);
    hide Times, FixAll, Finish, Pin, U32, Scan;
    var inodes, r := Inodes(s, leb), Pin(h, s, leb).value;
    ApartFrom(inodes, 124, 0, |s|);
    FinishSeals(h, FixAll(s, inodes), U32(s, 16));
    forall k: nat | k < |s| && !Volatile(inodes, k) ensures r[k] == s[k] {
      FixAllFrame(s, inodes, k);
    }
    WellFormedAgrees(s, r, leb);
  }

  // Two well-formed images come out equal exactly when they differ only in volatile bytes.
  lemma PinIsCanonical(h: seq<byte> -> RawDigest, s: seq<byte>, t: seq<byte>, leb: nat)
    requires WellFormed(s, leb) && WellFormed(t, leb)
    ensures Pin(h, s, leb) == Pin(h, t, leb) <==> AgreeBut(s, t, Inodes(s, leb))
  {
    hide Times, U32, Scan, Pin, WellFormed;
    PinFrame(h, s, leb);
    PinFrame(h, t, leb);
    if AgreeBut(s, t, Inodes(s, leb)) {
      PinAgrees(h, s, t, leb);
    }
  }

  lemma PinAgrees(h: seq<byte> -> RawDigest, s: seq<byte>, t: seq<byte>, leb: nat)
    requires WellFormed(s, leb) && AgreeBut(s, t, Inodes(s, leb))
    ensures WellFormed(t, leb) && Pin(h, t, leb) == Pin(h, s, leb)
  {
    WellFormedAgrees(s, t, leb);
    PinIs(h, s, leb);
    PinIs(h, t, leb);
    hide Times, FixAll, Pin, U32, Scan, Finish, WellFormed, Apart;
    FixAllAgrees(s, t, Inodes(s, leb));
    FinishAgrees(h, FixAll(s, Inodes(s, leb)), FixAll(t, Inodes(s, leb)), U32(s, 16));
  }

  lemma FinishAgrees(h: seq<byte> -> RawDigest, a: seq<byte>, b: seq<byte>, sb: nat)
    requires 124 <= sb <= |a| && AgreeBut(a, b, [])
    ensures Finish(h, a, sb) == Finish(h, b, sb)
  {
    hide Times, Blank, Splice;
    forall k | 0 <= k < |a| && !SuperblockSeal(k) ensures a[k] == b[k] {
      NoTimes(k);
    }
    BlankAgrees(a, b);
  }

  lemma NoTimes(k: int)
    ensures !Times([], k)
  {
  }

  lemma PinIsIdempotent(h: seq<byte> -> RawDigest, s: seq<byte>, leb: nat)
    requires WellFormed(s, leb)
    ensures Pin(h, s, leb).Some? && Pin(h, Pin(h, s, leb).value, leb) == Pin(h, s, leb)
  {
    hide Pin, WellFormed, AgreeBut;
    PinFrame(h, s, leb);
    PinAgrees(h, s, Pin(h, s, leb).value, leb);
  }

  // Every inode in the output has one time, its mtime, and a valid CRC; so has the superblock, over its new UUID.
  lemma PinSeals(h: seq<byte> -> RawDigest, s: seq<byte>, leb: nat, i: nat)
    requires WellFormed(s, leb)
    ensures Pin(h, s, leb).Some?
    ensures SuperblockSealed(h, Pin(h, s, leb).value, U32(s, 16))
    ensures i < |Inodes(s, leb)| ==> Sealed(s, Pin(h, s, leb).value, Inodes(s, leb)[i])
  {
    PinIs(h, s, leb);
    hide Times, FixAll, Finish, Pin, U32, Scan, SuperblockSealed, Sealed, Apart;
    FinishSeals(h, FixAll(s, Inodes(s, leb)), U32(s, 16));
    if i < |Inodes(s, leb)| {
      InodeIsSealed(h, s, Inodes(s, leb), U32(s, 16), i);
    }
  }

  lemma InodeIsSealed(h: seq<byte> -> RawDigest, s: seq<byte>, inodes: seq<Inode>, sb: nat, i: nat)
    requires Apart(inodes, 124, |s|) && 124 <= sb <= |s| && i < |inodes|
    ensures Sealed(s, Finish(h, FixAll(s, inodes), sb), inodes[i])
  {
    hide NodeOf, FixAll, Finish, Fixed, NodeSealed, Times;
    ApartFrom(inodes, 124, 0, |s|);
    FixAllFixes(s, inodes, i);
    FinishLeaves(h, FixAll(s, inodes), sb, inodes[i]);
    FixedIs(NodeOf(s, inodes[i]));
  }

  ghost predicate Sealed(s: seq<byte>, r: seq<byte>, x: Inode) {
    |r| == |s| && x.at + x.len <= |s| && NodeSealed(NodeOf(s, x), NodeOf(r, x))
  }

  lemma FinishLeaves(h: seq<byte> -> RawDigest, all: seq<byte>, sb: nat, x: Inode)
    requires 124 <= sb <= |all| && 124 <= x.at && x.at + x.len <= |all|
    ensures NodeOf(Finish(h, all, sb), x) == NodeOf(all, x)
  {
    hide Finish, SuperblockSealed;
    FinishSeals(h, all, sb);
    SameSlice(Finish(h, all, sb), all, x.at, x.len);
  }
}
