// bootPolicy (src/image/boot-policy.ts): the initrd of a signed boot object, in the tree of a FIT or in a section of a
// unified kernel image, and the policy in the initrd. zstd decompression and JSON.parse are parameters.
module BootPolicy {
  import opened Wrappers
  import opened Bytes
  import DeviceTree
  import opened Offsets
  import FlatTree
  import Uki
  import UkiLayout
  import Newc
  import NewcArchive
  import NewcLayout

  const FIT_MAGIC := 0xd00dfeed

  datatype Format = Fit | UkiImage

  datatype Error = NotFit | NoInitrd | NotZstd | Tree(tree: DeviceTree.Error) | Initrd(initrd: Newc.Error)

  datatype Blocks = Blocks(structure: seq<byte>, strings: seq<byte>)

  function Within(boot: seq<byte>, at: nat, n: nat): Option<seq<byte>> {
    if at + n > |boot| then None else Some(boot[at..at + n])
  }

  // The structure and strings blocks, where the header has the magic and stays inside the object.
  function FitBlocks(boot: seq<byte>): Option<Blocks> {
    if |boot| < 40 || DeviceTree.U32(boot, 0) != FIT_MAGIC || DeviceTree.U32(boot, 4) > |boot| then None else
      var structure := Within(boot, DeviceTree.U32(boot, 8), DeviceTree.U32(boot, 36));
      var strings := Within(boot, DeviceTree.U32(boot, 12), DeviceTree.U32(boot, 32));
      if structure.None? || strings.None? then None else Some(Blocks(structure.value, strings.value))
  }

  // The scan of the structure block is sure to end.
  predicate Scannable(boot: seq<byte>) {
    FitBlocks(boot).Some? ==> |FitBlocks(boot).value.structure| < DeviceTree.STRUCTURE_LIMIT
  }

  // The initrd of a FIT; None where it is refused.
  function FitInitrd(boot: seq<byte>): Option<seq<byte>>
    requires Scannable(boot)
  {
    match FitBlocks(boot)
    case None => None
    case Some(b) =>
      match DeviceTree.ScanFrom(b.structure, b.strings, DeviceTree.START)
      case Err(_) => None
      case Ok(initrd) => initrd
  }

  ghost predicate HoldsInitrd(boot: seq<byte>, format: Format, initrd: seq<byte>)
    requires format.Fit? ==> Scannable(boot)
  {
    match format
    case Fit => FitInitrd(boot) == Some(initrd)
    case UkiImage => Uki.Holds(boot, initrd)
  }

  // The policy in an initrd.
  function Policy(initrd: seq<byte>, unzstd: seq<byte> -> Option<seq<byte>>, parse: seq<byte> -> Option<Newc.Json>): Option<Newc.Json> {
    match unzstd(initrd)
    case None => None
    case Some(cpio) => if |cpio| > Newc.CPIO_LIMIT then None else Newc.Chosen(parse, Newc.Members(cpio, 0), None)
  }

  method FindInitrd(boot: seq<byte>, format: Format) returns (r: Result<seq<byte>, Error>)
    requires format.Fit? ==> Scannable(boot)
    ensures r.Ok? ==> HoldsInitrd(boot, format, r.value)
    ensures r.Err? ==> forall initrd :: !HoldsInitrd(boot, format, initrd)
  {
    hide DeviceTree.ScanFrom, FitBlocks, Uki.Holds;
    if format.UkiImage? {
      var initrd := Uki.Initrd(boot);
      return if initrd.None? then Err(NoInitrd) else Ok(initrd.value);
    }
    var blocks := FitBlocks(boot);
    if blocks.None? {
      return Err(NotFit);
    }
    var scanned := DeviceTree.Scan(blocks.value.structure, blocks.value.strings);
    if scanned.Err? {
      return Err(Tree(scanned.error));
    }
    if scanned.value.None? {
      return Err(NoInitrd);
    }
    r := Ok(scanned.value.value);
  }

  // A policy is found exactly where the object holds an initrd and the initrd a policy.
  method BootPolicy(boot: seq<byte>, format: Format, unzstd: seq<byte> -> Option<seq<byte>>, parse: seq<byte> -> Option<Newc.Json>)
    returns (r: Result<Newc.Json, Error>)
    requires format.Fit? ==> Scannable(boot)
    ensures r.Ok? ==> exists initrd :: HoldsInitrd(boot, format, initrd) && Policy(initrd, unzstd, parse) == Some(r.value)
    ensures r.Err? ==> forall initrd | HoldsInitrd(boot, format, initrd) :: Policy(initrd, unzstd, parse).None?
  {
    hide Newc.Chosen, Newc.Members, HoldsInitrd;
    var initrd := FindInitrd(boot, format);
    if initrd.Err? {
      return Err(initrd.error);
    }
    OneInitrd(boot, format);
    var cpio := unzstd(initrd.value);
    if cpio.None? {
      return Err(NotZstd);
    }
    var policy := Newc.Scan(parse, cpio.value);
    if policy.Err? {
      return Err(Initrd(policy.error));
    }
    r := Ok(policy.value);
  }

  lemma OneInitrd(boot: seq<byte>, format: Format)
    requires format.Fit? ==> Scannable(boot)
    ensures forall a, b | HoldsInitrd(boot, format, a) && HoldsInitrd(boot, format, b) :: a == b
  {
    hide Uki.Holds, FitInitrd;
    if format.UkiImage? {
      forall a, b | Uki.Holds(boot, a) && Uki.Holds(boot, b) ensures a == b {
        Uki.HoldsOne(boot, a, b);
      }
    }
  }

  // The header of a flattened tree, by section 5.2 of the Devicetree Specification v0.4: ten words, the sizes of the strings
  // and structure blocks the last two.
  datatype Header = Header(total: nat, structure: nat, strings: nat, reserved: nat, version: nat, compatible: nat, cpu: nat)

  function HeaderWords(h: Header, strings: nat, structure: nat): seq<nat> {
    [0xd00dfeed, h.total, h.structure, h.strings, h.reserved, h.version, h.compatible, h.cpu, strings, structure]
  }

  function Words(ws: seq<nat>): seq<byte> {
    if ws == [] then [] else BigEndian(ws[0], 4) + Words(ws[1..])
  }

  // A boot object that begins with such a header and has the two blocks where it says, whatever else it holds.
  ghost predicate IsFit(boot: seq<byte>, h: Header, structure: seq<byte>, strings: seq<byte>) {
    var words := HeaderWords(h, |strings|, |structure|);
    && (forall i | 0 <= i < 10 :: words[i] < U32_LIMIT)
    && At(boot, 0, Words(words)) && h.total <= |boot|
    && At(boot, h.structure, structure) && At(boot, h.strings, strings)
  }

  lemma {:induction false} WordAt(s: seq<byte>, at: nat, ws: seq<nat>, i: nat)
    requires At(s, at, Words(ws)) && i < |ws| && ws[i] < U32_LIMIT
    ensures at + 4 * i + 4 <= |s| && DeviceTree.U32(s, at + 4 * i) == ws[i]
    decreases i
  {
    hide DeviceTree.U32, BigEndian;
    AtConcat(s, at, BigEndian(ws[0], 4), Words(ws[1..]));
    if i == 0 {
      var before, after := s[..at], s[at + 4..];
      assert s == before + BigEndian(ws[0], 4) + after;
      DeviceTree.ReadsBack(before, ws[0], after, s);
    } else {
      WordAt(s, at + 4, ws[1..], i - 1);
    }
  }

  // The blocks are found where the header says.
  lemma BlocksOfFit(boot: seq<byte>, h: Header, structure: seq<byte>, strings: seq<byte>)
    requires IsFit(boot, h, structure, strings)
    ensures FitBlocks(boot) == Some(Blocks(structure, strings))
  {
    hide DeviceTree.U32, Words;
    var ws := HeaderWords(h, |strings|, |structure|);
    WordAt(boot, 0, ws, 0);
    WordAt(boot, 0, ws, 1);
    WordAt(boot, 0, ws, 2);
    WordAt(boot, 0, ws, 3);
    WordAt(boot, 0, ws, 8);
    WordAt(boot, 0, ws, 9);
  }

  function WordsOf(s: seq<byte>, at: nat, n: nat): (ws: seq<nat>)
    requires at + 4 * n <= |s|
    ensures |ws| == n && forall i | 0 <= i < n :: ws[i] == DeviceTree.U32(s, at + 4 * i) < U32_LIMIT
    decreases n
  {
    if n == 0 then [] else [DeviceTree.U32(s, at)] + WordsOf(s, at + 4, n - 1)
  }

  lemma {:induction false} WordsStand(s: seq<byte>, at: nat, n: nat)
    requires at + 4 * n <= |s|
    ensures At(s, at, Words(WordsOf(s, at, n)))
    decreases n
  {
    if n > 0 {
      WordsStand(s, at + 4, n - 1);
      BigEndianOf(Slice(s, at, 4));
      hide BigEndian, FromBigEndian;
      AtJoin(s, at, BigEndian(DeviceTree.U32(s, at), 4), Words(WordsOf(s, at + 4, n - 1)));
    }
  }

  // And they are found in no other object: it has such a header, and the two blocks where that says.
  lemma BlocksExactly(boot: seq<byte>, structure: seq<byte>, strings: seq<byte>)
    ensures FitBlocks(boot) == Some(Blocks(structure, strings)) <==> exists h :: IsFit(boot, h, structure, strings)
  {
    if FitBlocks(boot) == Some(Blocks(structure, strings)) {
      HeaderStands(boot, structure, strings);
    }
    if h :| IsFit(boot, h, structure, strings) {
      BlocksOfFit(boot, h, structure, strings);
    }
    hide FitBlocks, IsFit;
  }

  lemma BlocksAre(boot: seq<byte>, structure: seq<byte>, strings: seq<byte>)
    requires FitBlocks(boot) == Some(Blocks(structure, strings))
    ensures |boot| >= 40 && DeviceTree.U32(boot, 0) == 0xd00dfeed && DeviceTree.U32(boot, 4) <= |boot|
    ensures |structure| == DeviceTree.U32(boot, 36) && |strings| == DeviceTree.U32(boot, 32)
    ensures At(boot, DeviceTree.U32(boot, 8), structure) && At(boot, DeviceTree.U32(boot, 12), strings)
  {
    hide DeviceTree.U32;
  }

  function HeaderOf(boot: seq<byte>): Header
    requires |boot| >= 40
  {
    var ws := WordsOf(boot, 0, 10);
    Header(ws[1], ws[2], ws[3], ws[4], ws[5], ws[6], ws[7])
  }

  lemma HeaderIs(boot: seq<byte>)
    requires |boot| >= 40 && DeviceTree.U32(boot, 0) == 0xd00dfeed
    ensures HeaderWords(HeaderOf(boot), DeviceTree.U32(boot, 32), DeviceTree.U32(boot, 36)) == WordsOf(boot, 0, 10)
    ensures HeaderOf(boot).total == DeviceTree.U32(boot, 4)
    ensures HeaderOf(boot).structure == DeviceTree.U32(boot, 8) && HeaderOf(boot).strings == DeviceTree.U32(boot, 12)
  {
    hide DeviceTree.U32, WordsOf;
    var ws := WordsOf(boot, 0, 10);
    assert ws[0] == DeviceTree.U32(boot, 0) && ws[1] == DeviceTree.U32(boot, 4) && ws[2] == DeviceTree.U32(boot, 8);
    assert ws[3] == DeviceTree.U32(boot, 12) && ws[8] == DeviceTree.U32(boot, 32) && ws[9] == DeviceTree.U32(boot, 36);
  }

  lemma HeaderStands(boot: seq<byte>, structure: seq<byte>, strings: seq<byte>)
    requires FitBlocks(boot) == Some(Blocks(structure, strings))
    ensures exists h :: IsFit(boot, h, structure, strings)
  {
    BlocksAre(boot, structure, strings);
    WordsStand(boot, 0, 10);
    HeaderIs(boot);
    hide DeviceTree.U32, Words, BigEndian, FitBlocks, At, WordsOf, HeaderWords, HeaderOf;
    assert IsFit(boot, HeaderOf(boot), structure, strings);
  }

  // A FIT that flattens a tree, with an initrd that holds an archive, yields a policy exactly when the tree fits the scan's
  // offsets and has one ramdisk, and of the archive's texts under the policy's name the last is an array or object and all
  // before it are falsy; the policy is the last of them.
  lemma PolicyOfFit(boot: seq<byte>, h: Header, root: FlatTree.Items, strings: seq<byte>, junk: seq<byte>, ms: seq<Newc.Member>,
                    end: seq<byte>, unzstd: seq<byte> -> Option<seq<byte>>, parse: seq<byte> -> Option<Newc.Json>)
    requires FlatTree.Flattenable(root, strings) && |FlatTree.Structure(root) + junk| < DeviceTree.STRUCTURE_LIMIT
    requires IsFit(boot, h, FlatTree.Structure(root) + junk, strings)
    requires NewcLayout.IsArchive(ms, end)
    requires forall value | value in FlatTree.Ramdisks(root, strings) :: unzstd(value) == Some(Archive(ms, end))
    ensures Scannable(boot)
    ensures var texts := NewcLayout.PolicyTexts(ms);
      FoundInFit(boot, unzstd, parse)
      == if FlatTree.Fits(root, |FlatTree.Begin([])|) && |FlatTree.Ramdisks(root, strings)| == 1 && NewcLayout.Taken(parse, texts)
         then parse(texts[|texts| - 1]) else None
  {
    hide FlatTree.Ramdisks, FlatTree.Flattenable, FlatTree.Fits, FlatTree.Begin, FlatTree.Structure;
    hide Archive, NewcLayout.IsArchive, NewcLayout.Taken, NewcLayout.PolicyTexts, DeviceTree.ScanFrom, FitBlocks, IsFit, Policy;
    BlocksOfFit(boot, h, FlatTree.Structure(root) + junk, strings);
    var values := FlatTree.Ramdisks(root, strings);
    FlatTree.ScanIsLookup(root, strings, junk);
    if |values| == 1 {
      assert unzstd(values[0]) == Some(Archive(ms, end));
      PolicyOfInitrd(values[0], ms, end, unzstd, parse);
    }
  }

  // The bytes of an archive.
  function Archive(ms: seq<Newc.Member>, end: seq<byte>): seq<byte> {
    NewcArchive.Encode(ms) + end
  }

  // An initrd that decompresses to an archive holds the policy the archive does.
  lemma PolicyOfInitrd(initrd: seq<byte>, ms: seq<Newc.Member>, end: seq<byte>, unzstd: seq<byte> -> Option<seq<byte>>,
                       parse: seq<byte> -> Option<Newc.Json>)
    requires NewcLayout.IsArchive(ms, end) && unzstd(initrd) == Some(Archive(ms, end))
    ensures var texts := NewcLayout.PolicyTexts(ms);
      Policy(initrd, unzstd, parse) == if NewcLayout.Taken(parse, texts) then parse(texts[|texts| - 1]) else None
  {
    NewcLayout.ScanOfArchive(parse, ms, end);
    hide NewcArchive.Encode, Newc.Chosen, Newc.Members, NewcLayout.Taken, NewcLayout.PolicyTexts;
  }

  // Of whatever bytes, an initrd holds a policy if and only if it decompresses to no more than 64 MiB in which members stand
  // one behind the other, the last text under the policy's name an array or object and all before it falsy.
  lemma PolicyExactly(initrd: seq<byte>, unzstd: seq<byte> -> Option<seq<byte>>, parse: seq<byte> -> Option<Newc.Json>, j: Newc.Json)
    ensures Policy(initrd, unzstd, parse) == Some(j)
      <==> (&& unzstd(initrd).Some? && |unzstd(initrd).value| <= 67108864
            && exists ms :: NewcLayout.HoldsPolicy(parse, unzstd(initrd).value, ms, j))
  {
    hide Newc.Chosen, Newc.Members, NewcLayout.HoldsPolicy;
    if unzstd(initrd).Some? && |unzstd(initrd).value| <= 67108864 {
      NewcLayout.PolicyExactly(parse, unzstd(initrd).value, j);
    }
  }

  // The same of a UKI: its initrd is the bytes of the one section of the name, and its policy theirs.
  lemma PolicyOfUki(boot: seq<byte>, at: nat, p: UkiLayout.Pe, i: nat, initrd: seq<byte>, ms: seq<Newc.Member>, end: seq<byte>,
                    unzstd: seq<byte> -> Option<seq<byte>>, parse: seq<byte> -> Option<Newc.Json>)
    requires UkiLayout.IsUki(boot, at, p) && UkiLayout.IsOnlyInitrd(boot, p, i, initrd)
    requires NewcLayout.IsArchive(ms, end) && unzstd(initrd) == Some(Archive(ms, end))
    ensures forall other :: HoldsInitrd(boot, UkiImage, other) <==> other == initrd
    ensures var texts := NewcLayout.PolicyTexts(ms);
      Policy(initrd, unzstd, parse) == if NewcLayout.Taken(parse, texts) then parse(texts[|texts| - 1]) else None
  {
    hide UkiLayout.IsUki, UkiLayout.IsOnlyInitrd, Uki.Holds, Policy, NewcLayout.IsArchive, NewcLayout.Taken, NewcLayout.PolicyTexts, Archive;
    UkiLayout.HoldsExactly(boot, initrd);
    forall other | Uki.Holds(boot, other) ensures other == initrd {
      Uki.HoldsOne(boot, other, initrd);
    }
    PolicyOfInitrd(initrd, ms, end, unzstd, parse);
  }

  // What bootPolicy finds in a FIT.
  function FoundInFit(boot: seq<byte>, unzstd: seq<byte> -> Option<seq<byte>>, parse: seq<byte> -> Option<Newc.Json>): Option<Newc.Json>
    requires Scannable(boot)
  {
    match FitInitrd(boot)
    case None => None
    case Some(initrd) => Policy(initrd, unzstd, parse)
  }
}
