// A UBIFS image from its writer's side: the nodes mkfs.ubifs puts into each erase block, each filled up to a multiple of
// eight bytes, padding nodes with the gap they stand for, and free space. The walk of pinUbifs (src/image/flash-image.ts)
// reaches exactly these nodes.
module UbifsLayout {
  import opened Wrappers
  import opened Bytes
  import opened Buffers
  import opened Offsets
  import opened Ubifs

  const MAGIC: seq<byte> := [0x31, 0x18, 0x10, 0x06]
  const INODE: byte := 0
  const PADDING: byte := 5
  const SUPERBLOCK: byte := 6

  // A node: the common header's CRC, sequence number, kind and group, and what follows the header.
  datatype Node = Node(crc: seq<byte>, number: seq<byte>, kind: byte, group: seq<byte>, body: seq<byte>)

  function Header(n: Node): seq<byte> {
    MAGIC + (n.crc + (n.number + (Little(24 + |n.body|, 4) + ([n.kind] + n.group))))
  }

  function NodeBytes(n: Node): seq<byte> {
    Header(n) + n.body
  }

  // A node and what fills the block up to the next one.
  datatype Item = Item(node: Node, fill: seq<byte>)

  function ItemBytes(i: Item): seq<byte> {
    NodeBytes(i.node) + i.fill
  }

  // The fields in their widths; an inode long enough for its times. A padding node holds the length of its gap, any other
  // is followed by zeros to the next multiple of eight.
  predicate ValidItem(i: Item) {
    var n := i.node;
    && |n.crc| == 4 && |n.number| == 8 && |n.group| == 3 && |NodeBytes(n)| < U32_LIMIT
    && (n.kind == INODE ==> |n.body| >= 68)
    && if n.kind == PADDING then |i.fill| < U32_LIMIT && |n.body| >= 4 && n.body[..4] == Little(|i.fill|, 4)
       else i.fill == Zeros((8 - |NodeBytes(n)| % 8) % 8)
  }

  function ItemsBytes(items: seq<Item>): seq<byte> {
    if items == [] then [] else ItemBytes(items[0]) + ItemsBytes(items[1..])
  }

  // An erase block: nodes, and free space that does not begin like one.
  datatype Leb = Leb(items: seq<Item>, free: seq<byte>)

  function LebBytes(b: Leb): seq<byte> {
    ItemsBytes(b.items) + b.free
  }

  predicate ValidLeb(b: Leb, leb: nat) {
    && (forall i | 0 <= i < |b.items| :: ValidItem(b.items[i]))
    && (|b.free| >= 24 ==> b.free[..4] != MAGIC)
    && |LebBytes(b)| == leb
  }

  function ImageBytes(blocks: seq<Leb>): seq<byte> {
    if blocks == [] then [] else LebBytes(blocks[0]) + ImageBytes(blocks[1..])
  }

  // A file system: blocks of one size, the superblock first.
  predicate ValidImage(blocks: seq<Leb>, leb: nat) {
    && blocks != [] && (forall i | 0 <= i < |blocks| :: ValidLeb(blocks[i], leb))
    && blocks[0].items != []
    && var superblock := blocks[0].items[0].node; superblock.kind == SUPERBLOCK && |superblock.body| >= 100
  }

  /* -------- Where its inodes are -------- */

  function InodesIn(items: seq<Item>, at: nat): seq<Inode> {
    if items == [] then [] else
      var rest := InodesIn(items[1..], at + |ItemBytes(items[0])|);
      if items[0].node.kind == INODE then [Inode(at, |NodeBytes(items[0].node)|)] + rest else rest
  }

  function InodesOf(blocks: seq<Leb>, at: nat): seq<Inode> {
    if blocks == [] then [] else InodesIn(blocks[0].items, at) + InodesOf(blocks[1..], at + |LebBytes(blocks[0])|)
  }

  /* -------- What the walk reads -------- */

  lemma MagicIsLittle(s: seq<byte>, at: nat)
    requires at + 4 <= |s|
    ensures U32(s, at) == UBIFS_MAGIC <==> At(s, at, MAGIC)
  {
    var b := s[at..at + 4];
    assert b == [s[at], s[at + 1], s[at + 2], s[at + 3]];
    if U32(s, at) == UBIFS_MAGIC {
      SameDigits(s[at], s[at + 1], s[at + 2], s[at + 3], 0x31, 0x18, 0x10, 0x06);
    }
  }

  lemma SameDigits(a: byte, b: byte, c: byte, d: byte, p: byte, q: byte, r: byte, t: byte)
    requires a + 0x100 * b + 0x1_0000 * c + 0x100_0000 * d == p + 0x100 * q + 0x1_0000 * r + 0x100_0000 * t
    ensures a == p && b == q && c == r && d == t
  {
  }

  // The header of a node where it stands.
  lemma ReadsHeader(s: seq<byte>, at: nat, i: Item)
    requires ValidItem(i) && At(s, at, ItemBytes(i))
    ensures at + |NodeBytes(i.node)| + |i.fill| <= |s| && |NodeBytes(i.node)| == 24 + |i.node.body|
    ensures U32(s, at) == UBIFS_MAGIC && U32(s, at + 16) == |NodeBytes(i.node)| && s[at + 20] == i.node.kind
    ensures At(s, at + 24, i.node.body)
  {
    hide U32, Little;
    var n := i.node;
    var kind := [n.kind] + n.group;
    var length := Little(24 + |n.body|, 4) + kind;
    AtConcat(s, at, NodeBytes(n), i.fill);
    AtConcat(s, at, Header(n), n.body);
    AtConcat(s, at, MAGIC, n.crc + (n.number + length));
    AtConcat(s, at + 4, n.crc, n.number + length);
    AtConcat(s, at + 8, n.number, length);
    AtConcat(s, at + 16, Little(24 + |n.body|, 4), kind);
    AtConcat(s, at + 20, [n.kind], n.group);
    MagicIsLittle(s, at);
    ReadsLittle(s, at + 16, 24 + |n.body|);
    assert s[at + 20] == s[at + 20..at + 21][0];
  }

  lemma ReadsGap(s: seq<byte>, at: nat, i: Item)
    requires ValidItem(i) && At(s, at, ItemBytes(i)) && i.node.kind == PADDING
    ensures at + 28 <= |s| && U32(s, at + 24) == |i.fill|
  {
    hide U32, Little, NodeBytes;
    ReadsHeader(s, at, i);
    assert i.node.body == i.node.body[..4] + i.node.body[4..];
    AtConcat(s, at + 24, i.node.body[..4], i.node.body[4..]);
    ReadsLittle(s, at + 24, |i.fill|);
  }

  lemma FilledToEight(n: nat)
    ensures n + (8 - n % 8) % 8 == RoundUp8(n)
  {
  }

  // From one node the walk goes on to the next.
  lemma NextItem(s: seq<byte>, start: nat, leb: nat, at: nat, i: Item)
    requires ValidItem(i) && At(s, at, ItemBytes(i)) && at + |ItemBytes(i)| <= start + leb
    ensures at + 24 <= |s| && IsNode(s, start, leb, at) && WellFormedNode(s, start + leb, at)
    ensures Next(s, at) == Some(at + |ItemBytes(i)|)
    ensures U32(s, at + 16) == |NodeBytes(i.node)| && s[at + 20] == i.node.kind
  {
    hide U32, Little, RoundUp8, Header;
    ReadsHeader(s, at, i);
    if i.node.kind == PADDING {
      ReadsGap(s, at, i);
    } else {
      FilledToEight(|NodeBytes(i.node)|);
    }
  }

  // Free space ends the walk of a block.
  lemma FreeEndsBlock(s: seq<byte>, start: nat, leb: nat, at: nat, free: seq<byte>)
    requires At(s, at, free) && at + |free| == start + leb && (|free| >= 24 ==> free[..4] != MAGIC)
    requires leb > 0 && start < |s|
    ensures Scan(s, leb, start, at) == Scan(s, leb, start + leb, start + leb)
  {
    hide U32, Next, WellFormedNode;
    if |free| >= 24 {
      MagicIsLittle(s, at);
      assert s[at..at + 4] == s[at..at + |free|][..4];
    }
  }

  // The inodes of a block and those of the blocks behind it.
  function With(inodes: seq<Inode>, rest: Option<seq<Inode>>): Option<seq<Inode>> {
    if rest.None? then None else Some(inodes + rest.value)
  }

  lemma WithCons(x: Inode, inodes: seq<Inode>, rest: Option<seq<Inode>>)
    requires rest.Some?
    ensures Some([x] + With(inodes, rest).value) == With([x] + inodes, rest)
  {
    assert [x] + (inodes + rest.value) == ([x] + inodes) + rest.value;
  }

  lemma {:induction false} ScanItems(s: seq<byte>, leb: nat, start: nat, at: nat, items: seq<Item>, free: seq<byte>)
    requires leb > 0 && start < |s| && At(s, at, ItemsBytes(items) + free) && at + |ItemsBytes(items) + free| == start + leb
    requires forall i | 0 <= i < |items| :: ValidItem(items[i])
    requires |free| >= 24 ==> free[..4] != MAGIC
    ensures Scan(s, leb, start, at) == With(InodesIn(items, at), Scan(s, leb, start + leb, start + leb))
    decreases |items|
  {
    hide Scan, U32, Next, WellFormedNode, ItemBytes, ValidItem, NodeBytes, IsNode;
    var behind := Scan(s, leb, start + leb, start + leb);
    if items == [] {
      assert [] + free == free;
      FreeEndsBlock(s, start, leb, at, free);
      assert behind.Some? ==> [] + behind.value == behind.value;
    } else {
      var i := items[0];
      assert ItemsBytes(items) + free == ItemBytes(i) + (ItemsBytes(items[1..]) + free);
      AtConcat(s, at, ItemBytes(i), ItemsBytes(items[1..]) + free);
      NextItem(s, start, leb, at, i);
      var next := at + |ItemBytes(i)|;
      ScanItems(s, leb, start, next, items[1..], free);
      NodeStep(s, leb, start, at);
      if behind.Some? && i.node.kind == INODE {
        WithCons(Inode(at, |NodeBytes(i.node)|), InodesIn(items[1..], next), behind);
      }
    }
  }

  lemma NodeStep(s: seq<byte>, leb: nat, start: nat, at: nat)
    requires leb > 0 && start < |s| && at + 24 <= |s| && IsNode(s, start, leb, at) && WellFormedNode(s, start + leb, at)
    ensures Next(s, at).Some?
    ensures var rest := Scan(s, leb, start, Next(s, at).value);
            Scan(s, leb, start, at) == if s[at + 20] == INO_NODE then With([Inode(at, U32(s, at + 16))], rest) else rest
  {
    hide U32;
  }

  lemma {:induction false} ScanBlocks(s: seq<byte>, leb: nat, start: nat, blocks: seq<Leb>)
    requires leb > 0 && At(s, start, ImageBytes(blocks)) && start + |ImageBytes(blocks)| == |s|
    requires forall i | 0 <= i < |blocks| :: ValidLeb(blocks[i], leb)
    ensures Scan(s, leb, start, start) == Some(InodesOf(blocks, start))
    decreases |blocks|
  {
    hide Scan, InodesIn, ItemsBytes, ValidItem;
    if blocks == [] {
      ScanEnds(s, leb, start);
    } else {
      var b := blocks[0];
      AtConcat(s, start, LebBytes(b), ImageBytes(blocks[1..]));
      assert ValidLeb(b, leb);
      ScanBlocks(s, leb, start + leb, blocks[1..]);
      ScanItems(s, leb, start, start, b.items, b.free);
    }
  }

  lemma ScanEnds(s: seq<byte>, leb: nat, start: nat)
    requires leb > 0 && start == |s|
    ensures Scan(s, leb, start, start) == Some([])
  {
  }

  lemma {:induction false} WholeBlocks(blocks: seq<Leb>, leb: nat)
    requires leb > 0 && forall i | 0 <= i < |blocks| :: ValidLeb(blocks[i], leb)
    ensures |ImageBytes(blocks)| % leb == 0 && (blocks != [] ==> |ImageBytes(blocks)| >= leb)
  {
    hide ValidItem;
    if blocks != [] {
      assert ValidLeb(blocks[0], leb);
      WholeBlocks(blocks[1..], leb);
      OneMore(|ImageBytes(blocks[1..])|, leb);
    }
  }

  lemma OneMore(n: nat, leb: nat)
    requires leb > 0 && n % leb == 0
    ensures (leb + n) % leb == 0
  {
    var q, q', r := n / leb, (leb + n) / leb, (leb + n) % leb;
    var d := q + 1 - q';
    assert d * leb == r by {
      assert n == q * leb && leb + n == q' * leb + r;
      assert d * leb == q * leb + leb - q' * leb;
    }
    SmallMultiple(d, leb, r);
  }

  /* -------- Every laid-out image -------- */

  // Such an image is well-formed, and its inodes are those its writer put there.
  lemma LaidOutInodes(blocks: seq<Leb>, leb: nat)
    requires ValidImage(blocks, leb)
    ensures WellFormed(ImageBytes(blocks), leb)
    ensures Inodes(ImageBytes(blocks), leb) == InodesOf(blocks, 0)
  {
    hide ValidItem, LebBytes, Scan;
    var s := ImageBytes(blocks);
    SuperblockFirst(blocks, leb);
    WholeBlocks(blocks, leb);
    assert At(s, 0, ImageBytes(blocks));
    ScanBlocks(s, leb, 0, blocks);
  }

  lemma SuperblockFirst(blocks: seq<Leb>, leb: nat)
    requires ValidImage(blocks, leb)
    ensures leb >= 124 && |ImageBytes(blocks)| >= 124
    ensures var s := ImageBytes(blocks); U32(s, 0) == UBIFS_MAGIC && s[20] == SB_NODE && 124 <= U32(s, 16) <= leb
  {
    hide U32, NodeBytes, ValidItem;
    var b, s := blocks[0], ImageBytes(blocks);
    var i := b.items[0];
    assert ValidLeb(b, leb) && ValidItem(i);
    assert s == LebBytes(b) + ImageBytes(blocks[1..]);
    assert LebBytes(b) == ItemBytes(i) + (ItemsBytes(b.items[1..]) + b.free);
    assert s == ItemBytes(i) + (ItemsBytes(b.items[1..]) + b.free + ImageBytes(blocks[1..]));
    AtPrefix(ItemBytes(i), ItemsBytes(b.items[1..]) + b.free + ImageBytes(blocks[1..]));
    ReadsHeader(s, 0, i);
  }

  // Where a node stands: behind the blocks before its own and the items before it.
  function Place(items: seq<Item>, start: nat, j: nat): Inode
    requires j < |items|
  {
    Inode(start + |ItemsBytes(items[..j])|, |NodeBytes(items[j].node)|)
  }

  lemma {:induction false} ItemInodes(items: seq<Item>, at: nat, j: nat)
    requires j < |items| && items[j].node.kind == INODE
    ensures Place(items, at, j) in InodesIn(items, at)
    decreases |items|
  {
    hide NodeBytes, ItemBytes;
    if j > 0 {
      ItemInodes(items[1..], at + |ItemBytes(items[0])|, j - 1);
      assert items[..j][1..] == items[1..][..j - 1];
      assert items[..j][0] == items[0];
    }
  }

  lemma {:induction false} BlockInodes(blocks: seq<Leb>, leb: nat, at: nat, i: nat, j: nat)
    requires i < |blocks| && j < |blocks[i].items| && blocks[i].items[j].node.kind == INODE
    requires forall k | 0 <= k < |blocks| :: |LebBytes(blocks[k])| == leb
    ensures Place(blocks[i].items, at + i * leb, j) in InodesOf(blocks, at)
    decreases i
  {
    hide NodeBytes, LebBytes, InodesIn, Place;
    if i == 0 {
      ItemInodes(blocks[0].items, at, j);
    } else {
      BlockInodes(blocks[1..], leb, at + leb, i - 1, j);
      assert at + leb + (i - 1) * leb == at + i * leb;
    }
  }

  // Every inode node of every laid-out image comes out with one time, its mtime, and a valid CRC.
  lemma LaidOutInodesAreSealed(h: seq<byte> -> RawDigest, blocks: seq<Leb>, leb: nat, i: nat, j: nat)
    requires ValidImage(blocks, leb)
    requires i < |blocks| && j < |blocks[i].items| && blocks[i].items[j].node.kind == INODE
    ensures InPlaceSealed(ImageBytes(blocks), Pin(h, ImageBytes(blocks), leb), Place(blocks[i].items, i * leb, j))
  {
    hide *;
    LaidOutInodes(blocks, leb);
    PlaceIsInode(blocks, leb, i, j, i * leb);
    MemberIsSealed(h, ImageBytes(blocks), leb, Place(blocks[i].items, i * leb, j));
  }

  ghost predicate InPlaceSealed(s: seq<byte>, r: Option<seq<byte>>, x: Inode) {
    r.Some? && Sealed(s, r.value, x)
  }

  lemma PlaceIsInode(blocks: seq<Leb>, leb: nat, i: nat, j: nat, start: nat)
    requires ValidImage(blocks, leb) && start == i * leb
    requires i < |blocks| && j < |blocks[i].items| && blocks[i].items[j].node.kind == INODE
    ensures Place(blocks[i].items, start, j) in InodesOf(blocks, 0)
  {
    hide *;
    BlockLengths(blocks, leb);
    BlockInodes(blocks, leb, 0, i, j);
  }

  lemma BlockLengths(blocks: seq<Leb>, leb: nat)
    requires ValidImage(blocks, leb)
    ensures forall k | 0 <= k < |blocks| :: |LebBytes(blocks[k])| == leb
  {
    hide ValidItem, LebBytes;
  }

  lemma MemberIsSealed(h: seq<byte> -> RawDigest, s: seq<byte>, leb: nat, x: Inode)
    requires WellFormed(s, leb) && x in Inodes(s, leb)
    ensures InPlaceSealed(s, Pin(h, s, leb), x)
  {
    hide Pin, Sealed, SuperblockSealed, WellFormed, Inodes;
    var k :| 0 <= k < |Inodes(s, leb)| && Inodes(s, leb)[k] == x;
    PinSeals(h, s, leb, k);
  }
}
