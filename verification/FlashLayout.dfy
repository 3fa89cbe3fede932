// A UBI board's flash (src/image/flash-layout.ts): the geometry its regions are held to, the capacity rule over whole
// LEBs, and what the rule guarantees every later update.
module FlashLayout {
  import opened Arithmetic
  import opened Wrappers

  const UBI_HEADER := 64
  const UBI_RESERVED_PEBS := 4
  const BEB_LIMIT := 20
  const RECORD_BYTES := 65536
  const MIB := 1048576

  datatype Kind = Nor | Nand
  datatype Role = Loader | Fixed | Ubi
  datatype Geometry = Geometry(kind: Kind, eraseBlock: nat, minIo: nat, subPage: nat, vidOffset: nat, size: nat)
  datatype Region = Region(name: string, role: Role, offset: nat, size: nat)
  datatype Reserves = Reserves(system: nat, data: nat, store: Option<nat>)
  datatype Layout = Layout(flash: Geometry, regions: seq<Region>, system: nat, data: nat, reserves: Reserves)

  /* -------- Whole units -------- */

  // Math.ceil(n / to).
  function Ceil(n: nat, to: nat): nat
    requires to > 0
  {
    (n + to - 1) / to
  }

  function Align(n: nat, to: nat): nat
    requires to > 0
  {
    Ceil(n, to) * to
  }

  // The least number of whole units that covers n.
  lemma CeilIsLeast(n: nat, to: nat, k: nat)
    requires to > 0
    ensures k * to >= n <==> k >= Ceil(n, to)
  {
    DivBounds(n + to - 1, to);
    var q := Ceil(n, to);
    if k >= q {
      MulMonotone(q, k, to);
    } else {
      MulMonotone(k + 1, q, to);
      assert (k + 1) * to == k * to + to;
    }
  }

  lemma CeilMonotone(m: nat, n: nat, to: nat)
    requires to > 0 && m <= n
    ensures Ceil(m, to) <= Ceil(n, to)
  {
    CeilIsLeast(n, to, Ceil(n, to));
    CeilIsLeast(m, to, Ceil(n, to));
  }

  /* -------- The geometry -------- */

  // What parseFlashLayout holds the chip's own numbers to.
  predicate ChipRules(f: Geometry) {
    && f.eraseBlock > 0 && f.minIo > 0 && f.subPage > 0 && f.size > 0
    && f.minIo <= f.eraseBlock && f.eraseBlock % f.minIo == 0
    && f.subPage <= f.minIo && f.minIo % f.subPage == 0
    && f.vidOffset % f.subPage == 0 && f.vidOffset >= Align(UBI_HEADER, f.subPage)
    && f.vidOffset + UBI_HEADER <= f.eraseBlock
    && f.size % f.eraseBlock == 0
  }

  // In full: a sub-page divides a page, a page an erase block, an erase block the flash; the volume header lies on a sub-page
  // past the first 64 bytes and ends inside its block.
  lemma ChipRulesExactly(f: Geometry)
    ensures ChipRules(f)
      <==> (&& f.subPage > 0 && f.minIo > 0 && f.eraseBlock > 0 && f.size > 0
            && f.minIo % f.subPage == 0 && f.eraseBlock % f.minIo == 0 && f.size % f.eraseBlock == 0
            && f.vidOffset % f.subPage == 0 && 64 <= f.vidOffset && f.vidOffset + 64 <= f.eraseBlock)
  {
    if f.subPage > 0 && f.minIo > 0 && f.eraseBlock > 0 && f.vidOffset % f.subPage == 0 {
      var k := f.vidOffset / f.subPage;
      assert k * f.subPage == f.vidOffset;
      CeilIsLeast(UBI_HEADER, f.subPage, k);
      if f.vidOffset >= 64 {
        MulMonotone(Ceil(UBI_HEADER, f.subPage), k, f.subPage);
      }
      CeilIsLeast(UBI_HEADER, f.subPage, Ceil(UBI_HEADER, f.subPage));
      if f.minIo % f.subPage == 0 {
        MultipleIsLarger(f.minIo, f.subPage);
      }
      if f.eraseBlock % f.minIo == 0 {
        MultipleIsLarger(f.eraseBlock, f.minIo);
      }
    }
  }

  lemma MultipleIsLarger(n: nat, d: nat)
    requires n > 0 && d > 0 && n % d == 0
    ensures d <= n
  {
  }

  // Regions one after another from the start of the flash to its end.
  ghost predicate Tiles(regions: seq<Region>, start: nat, end: nat) {
    if regions == [] then start == end
    else regions[0].offset == start && regions[0].size > 0 && Tiles(regions[1..], start + regions[0].size, end)
  }

  function CountRole(regions: seq<Region>, role: Role): nat {
    if regions == [] then 0 else CountRole(regions[..|regions| - 1], role) + (if regions[|regions| - 1].role == role then 1 else 0)
  }

  ghost predicate RegionRules(f: Geometry, regions: seq<Region>) {
    && Tiles(regions, 0, f.size)
    && (forall i | 0 <= i < |regions| :: Aligned(f, regions[i]))
    && (forall i, j | 0 <= i < j < |regions| :: regions[i].name != regions[j].name)
    && CountRole(regions, Ubi) == 1 && CountRole(regions, Loader) <= 1
  }

  lemma {:induction false} TilesSnoc(regions: seq<Region>, r: Region, start: nat, end: nat)
    ensures Tiles(regions + [r], start, end) <==> r.size > 0 && end == r.offset + r.size && Tiles(regions, start, r.offset)
  {
    if regions == [] {
      assert [] + [r] == [r];
      assert [r][1..] == [];
    } else {
      TilesSnoc(regions[1..], r, start + regions[0].size, end);
      assert (regions + [r])[1..] == regions[1..] + [r];
    }
  }

  lemma {:induction false} TilesPrefix(regions: seq<Region>, more: seq<Region>, start: nat, end: nat)
    requires Tiles(regions + more, start, end)
    ensures exists middle :: Tiles(regions, start, middle) && Tiles(more, middle, end)
  {
    if regions == [] {
      assert [] + more == more;
      assert Tiles([], start, start);
    } else {
      assert (regions + more)[1..] == regions[1..] + more;
      TilesPrefix(regions[1..], more, start + regions[0].size, end);
      var middle :| Tiles(regions[1..], start + regions[0].size, middle) && Tiles(more, middle, end);
      assert Tiles(regions, start, middle);
    }
  }

  predicate Contains(r: Region, at: nat) {
    r.offset <= at < r.offset + r.size
  }

  // Every byte of the flash lies in exactly one region.
  lemma {:induction false} EveryByteInOneRegion(regions: seq<Region>, start: nat, end: nat, at: nat)
    requires Tiles(regions, start, end)
    ensures start <= end
    ensures start <= at < end <==> exists i | 0 <= i < |regions| :: Contains(regions[i], at)
    ensures forall i, j | 0 <= i < |regions| && 0 <= j < |regions| && Contains(regions[i], at) && Contains(regions[j], at) :: i == j
  {
    if regions != [] {
      var rest := regions[1..];
      EveryByteInOneRegion(rest, start + regions[0].size, end, at);
      if i :| 0 <= i < |rest| && Contains(rest[i], at) {
        assert regions[i + 1] == rest[i];
      }
      assert forall i | 1 <= i < |regions| :: regions[i] == rest[i - 1];
    }
  }

  lemma OffsetMismatch(regions: seq<Region>, i: nat, end: nat, size: nat)
    requires i < |regions| && Tiles(regions[..i], 0, end) && regions[i].offset != end
    ensures !Tiles(regions, 0, size)
  {
    if Tiles(regions, 0, size) {
      assert regions == regions[..i] + regions[i..];
      TilesPrefix(regions[..i], regions[i..], 0, size);
      var middle :| Tiles(regions[..i], 0, middle) && Tiles(regions[i..], middle, size);
      TilesEnd(regions[..i], 0, end, middle);
    }
  }

  lemma CountSnoc(regions: seq<Region>, i: nat, role: Role)
    requires i < |regions|
    ensures CountRole(regions[..i + 1], role) == CountRole(regions[..i], role) + (if regions[i].role == role then 1 else 0)
  {
    assert regions[..i + 1][..i] == regions[..i];
  }

  lemma TilesNext(regions: seq<Region>, i: nat)
    requires i < |regions| && Tiles(regions[..i], 0, regions[i].offset) && regions[i].size > 0
    ensures Tiles(regions[..i + 1], 0, regions[i].offset + regions[i].size)
  {
    assert regions[..i + 1] == regions[..i] + [regions[i]];
    TilesSnoc(regions[..i], regions[i], 0, regions[i].offset + regions[i].size);
  }

  lemma NoRegions()
    ensures Tiles([], 0, 0) && CountRole([], Ubi) == 0 && CountRole([], Loader) == 0
  {
  }

  predicate Aligned(f: Geometry, r: Region) {
    f.eraseBlock > 0 && r.offset % f.eraseBlock == 0 && r.size % f.eraseBlock == 0
  }

  // A region of whole erase blocks.
  lemma AlignedExactly(f: Geometry, r: Region, first: nat, blocks: nat)
    requires f.eraseBlock > 0
    ensures r.offset == first * f.eraseBlock && r.size == blocks * f.eraseBlock ==> Aligned(f, r)
    ensures Aligned(f, r) ==> exists k, n :: r.offset == k * f.eraseBlock && r.size == n * f.eraseBlock
  {
    if r.offset == first * f.eraseBlock && r.size == blocks * f.eraseBlock {
      WholeMultiple(first, f.eraseBlock);
      WholeMultiple(blocks, f.eraseBlock);
    }
    if Aligned(f, r) {
      assert r.offset == (r.offset / f.eraseBlock) * f.eraseBlock;
      assert r.size == (r.size / f.eraseBlock) * f.eraseBlock;
    }
  }

  lemma WholeMultiple(k: nat, d: nat)
    requires d > 0
    ensures (k * d) % d == 0
  {
    QuotientIs(k * d, d, k);
  }

  // The loop over the regions, in flash order, from the end of the ones before.
  method CheckRegions(f: Geometry, regions: seq<Region>) returns (ok: bool)
    requires ChipRules(f) && forall i | 0 <= i < |regions| :: regions[i].size > 0
    ensures ok <==> RegionRules(f, regions)
  {
    hide Tiles, CountRole, Aligned, ChipRules;
    var end, ubi, loader := 0, 0, 0;
    NoRegions();
    for i := 0 to |regions|
      invariant end >= 0 && Tiles(regions[..i], 0, end)
      invariant forall k | 0 <= k < i :: Aligned(f, regions[k])
      invariant forall j, k | 0 <= j < k < i :: regions[j].name != regions[k].name
      invariant ubi == CountRole(regions[..i], Ubi) && loader == CountRole(regions[..i], Loader)
    {
      var r := regions[i];
      if r.offset != end {
        OffsetMismatch(regions, i, end, f.size);
        return false;
      }
      if !Aligned(f, r) {
        return false;
      }
      end := r.offset + r.size;
      var twice := NamedTwice(regions, i);
      if twice {
        return false;
      }
      TilesNext(regions, i);
      CountSnoc(regions, i, Ubi);
      CountSnoc(regions, i, Loader);
      ubi := ubi + (if r.role == Ubi then 1 else 0);
      loader := loader + (if r.role == Loader then 1 else 0);
    }
    assert regions[..|regions|] == regions;
    if end != f.size && Tiles(regions, 0, f.size) {
      TilesEnd(regions, 0, end, f.size);
    }
    ok := end == f.size && ubi == 1 && loader <= 1;
  }

  lemma {:induction false} TilesEnd(regions: seq<Region>, start: nat, end: nat, other: nat)
    requires Tiles(regions, start, end) && Tiles(regions, start, other)
    ensures end == other
  {
    if regions != [] {
      TilesEnd(regions[1..], start + regions[0].size, end, other);
    }
  }

  // Whether another region has the name of region i.
  method NamedTwice(regions: seq<Region>, i: nat) returns (twice: bool)
    requires i < |regions|
    ensures twice <==> exists k | 0 <= k < |regions| && k != i :: regions[k].name == regions[i].name
  {
    for k := 0 to |regions|
      invariant forall j | 0 <= j < k && j != i :: regions[j].name != regions[i].name
    {
      if k != i && regions[k].name == regions[i].name {
        return true;
      }
    }
    twice := false;
  }

  /* -------- The UBI device's LEBs -------- */

  function UbiSize(regions: seq<Region>): nat {
    if regions == [] then 0 else if regions[0].role == Ubi then regions[0].size else UbiSize(regions[1..])
  }

  function LebSize(f: Geometry): int
    requires f.minIo > 0
  {
    f.eraseBlock - Align(f.vidOffset + UBI_HEADER, f.minIo)
  }

  // The LEBs the UBI partition offers its volumes; the bad-block reserve goes by the whole chip.
  function Available(f: Geometry, regions: seq<Region>): nat
    requires f.eraseBlock > 0
  {
    var pebs := UbiSize(regions) / f.eraseBlock;
    var bad := if f.kind == Nand then Ceil((f.size / f.eraseBlock) * BEB_LIMIT, 1024) else 0;
    if pebs < UBI_RESERVED_PEBS + bad then 0 else pebs - UBI_RESERVED_PEBS - bad
  }

  // What parseFlashLayout accepts.
  ghost predicate Parsed(l: Layout) {
    && ChipRules(l.flash) && RegionRules(l.flash, l.regions)
    && LebSize(l.flash) >= RECORD_BYTES
    && l.system + l.data + 2 <= Available(l.flash, l.regions)
    && (l.reserves.store.Some? ==> l.reserves.store.value * MIB >= l.reserves.system * MIB + LebSize(l.flash))
  }

  // The headers of an erase block never take more than the block.
  lemma LebFits(f: Geometry)
    requires ChipRules(f)
    ensures 0 <= LebSize(f) <= f.eraseBlock
  {
    var k := f.eraseBlock / f.minIo;
    DivBounds(f.eraseBlock, f.minIo);
    assert k * f.minIo == f.eraseBlock;
    CeilIsLeast(f.vidOffset + UBI_HEADER, f.minIo, k);
    MulMonotone(Ceil(f.vidOffset + UBI_HEADER, f.minIo), k, f.minIo);
  }

  // An erase block holds its counter's header of 64 bytes, then its volume header on a sub-page of its own, and its LEB from
  // the first page after both to its end.
  lemma BlockHolds(f: Geometry)
    requires ChipRules(f)
    ensures var data := f.eraseBlock - LebSize(f);
      && 64 <= f.vidOffset && f.vidOffset % f.subPage == 0
      && f.vidOffset + 64 <= data < f.vidOffset + 64 + f.minIo && data <= f.eraseBlock
      && exists k: nat :: data == k * f.minIo
  {
    LebFits(f);
    CeilIsLeast(UBI_HEADER, f.subPage, Ceil(UBI_HEADER, f.subPage));
    DivBounds(f.vidOffset + UBI_HEADER + f.minIo - 1, f.minIo);
    assert f.eraseBlock - LebSize(f) == Ceil(f.vidOffset + UBI_HEADER, f.minIo) * f.minIo;
  }

  // What is offered is every whole erase block of the UBI region but four and the bad-block reserve, which on NAND is the
  // least that keeps 20 for every 1024 blocks of the whole chip.
  lemma OfferedBlocks(f: Geometry, regions: seq<Region>, i: nat, pebs: nat, blocks: nat, bad: nat)
    requires f.eraseBlock > 0 && i < |regions| && regions[i].role == Ubi && forall j | 0 <= j < i :: regions[j].role != Ubi
    requires pebs * f.eraseBlock <= regions[i].size < (pebs + 1) * f.eraseBlock
    requires blocks * f.eraseBlock <= f.size < (blocks + 1) * f.eraseBlock
    requires if f.kind == Nand then bad * 1024 - 1024 < blocks * 20 <= bad * 1024 else bad == 0
    ensures Available(f, regions) == if pebs >= 4 + bad then pebs - 4 - bad else 0
  {
    FirstUbi(regions, i);
    QuotientIs(regions[i].size, f.eraseBlock, pebs);
    QuotientIs(f.size, f.eraseBlock, blocks);
  }

  lemma QuotientIs(n: nat, d: nat, q: nat)
    requires d > 0 && q * d <= n < (q + 1) * d
    ensures n / d == q
  {
    DivBounds(n, d);
    assert (n / d + 1) * d == (n / d) * d + d;
    if n / d < q {
      MulMonotone(n / d + 1, q, d);
    }
    if q < n / d {
      MulMonotone(q + 1, n / d, d);
    }
  }

  lemma {:induction false} FirstUbi(regions: seq<Region>, i: nat)
    requires i < |regions| && regions[i].role == Ubi && forall j | 0 <= j < i :: regions[j].role != Ubi
    ensures UbiSize(regions) == regions[i].size
  {
    if i > 0 {
      assert regions[0].role != Ubi;
      FirstUbi(regions[1..], i - 1);
    }
  }

  /* -------- The capacity rule -------- */

  // What the rule reads of a layout.
  datatype Device = Device(leb: nat, available: nat, system: nat, data: nat, reserves: Reserves)

  function DeviceOf(l: Layout): Device
    requires Parsed(l)
  {
    Device(LebSize(l.flash), Available(l.flash, l.regions), l.system, l.data, l.reserves)
  }

  // On every accepted layout a LEB holds a record copy, the fixed volumes fit, and a store reserve keeps, in whole LEBs,
  // the system reserve and one more.
  lemma ParsedLayoutsQualify(l: Layout)
    requires Parsed(l)
    ensures var d := DeviceOf(l);
            && d.leb >= 65536 && d.system + d.data + 2 <= d.available
            && (d.reserves.store.Some? ==> Ceil(d.reserves.store.value * MIB, d.leb) >= Ceil(d.reserves.system * MIB, d.leb) + 1)
  {
    hide Available;
    var d := DeviceOf(l);
    if d.reserves.store.Some? {
      OneMoreUnit(d.reserves.system * MIB, d.leb);
      CeilMonotone(d.reserves.system * MIB + d.leb, d.reserves.store.value * MIB, d.leb);
    }
  }

  lemma OneMoreUnit(n: nat, to: nat)
    requires to > 0
    ensures Ceil(n + to, to) >= Ceil(n, to) + 1
  {
    var k := Ceil(n + to, to);
    CeilIsLeast(n + to, to, k);
    assert (k - 1) * to == k * to - to;
    if k > 0 {
      CeilIsLeast(n, to, k - 1);
    }
  }

  function SumBytes(sizes: seq<nat>): nat {
    if sizes == [] then 0 else sizes[0] + SumBytes(sizes[1..])
  }

  function SumLebs(leb: nat, sizes: seq<nat>): nat
    requires leb > 0
  {
    if sizes == [] then 0 else Ceil(sizes[0], leb) + SumLebs(leb, sizes[1..])
  }

  function LargestLebs(leb: nat, sizes: seq<nat>): nat
    requires leb > 0
  {
    if sizes == [] then 0 else Max(Ceil(sizes[0], leb), LargestLebs(leb, sizes[1..]))
  }

  datatype Growth = Growth(store: nat, data: nat, usable: nat, staging: nat)

  // DATA grown into what the factory content and the store reserve leave; 0.8 of a UBIFS volume is taken as usable.
  function DataGrowth(d: Device, deployment: seq<nat>, coreSet: seq<nat>): Option<Growth>
    requires d.leb > 0
  {
    if d.reserves.store.None? then None else
      var factory := SumLebs(d.leb, deployment + coreSet);
      var store := Ceil(d.reserves.store.value * MIB, d.leb);
      var data := Max(d.data, d.available - d.system - 2 - factory - store);
      var staging := SumBytes(deployment + coreSet) + d.reserves.data * MIB;
      Some(Growth(store, data, data * d.leb * 4 / 5, staging))
  }

  datatype Refusal = UpdateTooLarge | FactoryTooLarge | StagingTooLarge | DeploymentsTooLarge

  function UbiCapacity(d: Device, deployment: seq<nat>, coreSet: seq<nat>): Option<Refusal>
    requires d.leb > 0
  {
    var one, cores := SumLebs(d.leb, deployment), SumLebs(d.leb, coreSet);
    var largest := Max(LargestLebs(d.leb, deployment), LargestLebs(d.leb, coreSet));
    var reserve := Ceil(d.reserves.system * MIB, d.leb);
    match DataGrowth(d, deployment, coreSet)
    case Some(g) =>
      if one + cores + largest + reserve > g.store then Some(UpdateTooLarge)
      else if d.system + d.data + 2 + one + cores + g.store > d.available then Some(FactoryTooLarge)
      else if g.staging > g.usable then Some(StagingTooLarge)
      else None
    case None =>
      if d.system + d.data + 2 + 2 * one + cores + largest + reserve > d.available then Some(DeploymentsTooLarge) else None
  }

  lemma {:induction false} SumLebsConcat(leb: nat, a: seq<nat>, b: seq<nat>)
    requires leb > 0
    ensures SumLebs(leb, a + b) == SumLebs(leb, a) + SumLebs(leb, b)
  {
    if a == [] {
      assert a + b == b;
    } else {
      SumLebsConcat(leb, a[1..], b);
      assert (a + b)[1..] == a[1..] + b;
    }
  }

  // Whole-LEB rounding covers the bytes of every object, and so of all of them together.
  lemma {:induction false} LebsCoverBytes(leb: nat, sizes: seq<nat>)
    requires leb > 0
    ensures SumLebs(leb, sizes) * leb >= SumBytes(sizes)
    ensures forall i | 0 <= i < |sizes| :: LargestLebs(leb, sizes) * leb >= sizes[i]
  {
    hide Ceil;
    if sizes != [] {
      LebsCoverBytes(leb, sizes[1..]);
      var c, r, m := Ceil(sizes[0], leb), SumLebs(leb, sizes[1..]), LargestLebs(leb, sizes[1..]);
      CeilIsLeast(sizes[0], leb, c);
      Distributes(c, r, leb);
      MulMonotone(c, Max(c, m), leb);
      MulMonotone(m, Max(c, m), leb);
      forall i | 1 <= i < |sizes| ensures m * leb >= sizes[i] {
        assert sizes[1..][i - 1] == sizes[i];
      }
    }
  }

  lemma Distributes(a: nat, b: nat, c: nat)
    ensures (a + b) * c == a * c + b * c
  {
  }

  // How many whole LEBs each object takes: the fewest that hold its bytes.
  ghost predicate TakeLebs(leb: nat, sizes: seq<nat>, counts: seq<nat>) {
    |counts| == |sizes| && forall i | 0 <= i < |sizes| :: counts[i] * leb >= sizes[i] && (counts[i] > 0 ==> (counts[i] - 1) * leb < sizes[i])
  }

  // The rule adds up just these, and finds the largest of them.
  lemma {:induction false} LebsAreCounted(leb: nat, sizes: seq<nat>, counts: seq<nat>)
    requires leb > 0 && TakeLebs(leb, sizes, counts)
    ensures SumLebs(leb, sizes) == SumBytes(counts)
    ensures forall i | 0 <= i < |counts| :: counts[i] <= LargestLebs(leb, sizes)
    ensures counts != [] ==> LargestLebs(leb, sizes) in counts
    ensures counts == [] ==> LargestLebs(leb, sizes) == 0
  {
    if sizes != [] {
      LebsAreCounted(leb, sizes[1..], counts[1..]);
      CeilIsLeast(sizes[0], leb, counts[0]);
      if counts[0] > 0 {
        CeilIsLeast(sizes[0], leb, counts[0] - 1);
      }
      assert counts == [counts[0]] + counts[1..];
    }
  }

  // With a store reserve an image is accepted exactly where the reserve holds one more deployment and core set, the largest
  // object while it is written and the system reserve; the volumes, the content and the reserve fit; and four fifths of what
  // these then leave to DATA hold what a full update stages on it.
  lemma AcceptedExactlyWithStore(d: Device, deployment: seq<nat>, coreSet: seq<nat>)
    requires d.leb > 0 && d.reserves.store.Some?
    ensures var content := SumLebs(d.leb, deployment) + SumLebs(d.leb, coreSet);
      var largest := LargestLebs(d.leb, deployment + coreSet);
      var store, reserve := Ceil(d.reserves.store.value * 1048576, d.leb), Ceil(d.reserves.system * 1048576, d.leb);
      var data := d.available - d.system - 2 - content - store;
      UbiCapacity(d, deployment, coreSet).None?
      <==> (&& content + largest + reserve <= store
            && d.data <= data
            && 5 * (SumBytes(deployment) + SumBytes(coreSet) + d.reserves.data * 1048576) <= 4 * (data * d.leb))
  {
    SumLebsConcat(d.leb, deployment, coreSet);
    SumBytesConcat(deployment, coreSet);
    LargestConcat(d.leb, deployment, coreSet);
    hide SumLebs, SumBytes, LargestLebs, Ceil;
    var g := DataGrowth(d, deployment, coreSet).value;
    DivBounds(g.data * d.leb * 4, 5);
  }

  lemma {:induction false} LargestConcat(leb: nat, a: seq<nat>, b: seq<nat>)
    requires leb > 0
    ensures LargestLebs(leb, a + b) == Max(LargestLebs(leb, a), LargestLebs(leb, b))
  {
    if a == [] {
      assert a + b == b;
    } else {
      LargestConcat(leb, a[1..], b);
      assert (a + b)[1..] == a[1..] + b;
    }
  }

  // Without one, exactly where two deployments, the core set, the largest object and the system reserve fit beside the
  // volumes and the two records.
  lemma AcceptedExactlyWithoutStore(d: Device, deployment: seq<nat>, coreSet: seq<nat>)
    requires d.leb > 0 && d.reserves.store.None?
    ensures UbiCapacity(d, deployment, coreSet).None?
      <==> 2 * SumLebs(d.leb, deployment) + SumLebs(d.leb, coreSet) + LargestLebs(d.leb, deployment + coreSet)
           + Ceil(d.reserves.system * 1048576, d.leb) <= d.available - (d.system + d.data + 2)
  {
    LargestConcat(d.leb, deployment, coreSet);
    hide SumLebs, LargestLebs, Ceil;
  }

  // Of a layout: what its chip, regions, volumes and reserves leave.
  lemma LayoutAcceptedExactly(l: Layout, deployment: seq<nat>, coreSet: seq<nat>)
    requires Parsed(l)
    ensures var leb: nat := DeviceOf(l).leb;
      leb == LebSize(l.flash) && leb > 0
      && var content, largest := SumLebs(leb, deployment) + SumLebs(leb, coreSet), LargestLebs(leb, deployment + coreSet);
      var reserve, left := Ceil(l.reserves.system * 1048576, leb), Available(l.flash, l.regions) - l.system - 2;
      UbiCapacity(DeviceOf(l), deployment, coreSet).None?
      <==> match l.reserves.store
           case None => SumLebs(leb, deployment) + content + largest + reserve <= left - l.data
           case Some(mib) =>
             var store := Ceil(mib * 1048576, leb);
             && content + largest + reserve <= store && l.data <= left - content - store
             && 5 * (SumBytes(deployment) + SumBytes(coreSet) + l.reserves.data * 1048576) <= 4 * ((left - content - store) * leb)
  {
    LebFits(l.flash);
    hide Available, LebSize, SumLebs, SumBytes, LargestLebs, Ceil, UbiCapacity;
    if l.reserves.store.Some? {
      AcceptedExactlyWithStore(DeviceOf(l), deployment, coreSet);
    } else {
      AcceptedExactlyWithoutStore(DeviceOf(l), deployment, coreSet);
    }
  }

  // With a store reserve: after an accepted image's DATA has grown, exactly the store LEBs are left free, and they hold
  // one more deployment, one more core set, the largest object while it is written and the system reserve; the grown
  // DATA holds what a full update stages on it.
  lemma AcceptedWithStore(d: Device, deployment: seq<nat>, coreSet: seq<nat>)
    requires d.leb > 0 && d.reserves.store.Some? && UbiCapacity(d, deployment, coreSet).None?
    ensures var g := DataGrowth(d, deployment, coreSet).value;
            var factory := SumLebs(d.leb, deployment) + SumLebs(d.leb, coreSet);
            && d.available - (d.system + g.data + 2 + factory) == g.store
            && g.data >= d.data
            && g.store >= factory + Max(LargestLebs(d.leb, deployment), LargestLebs(d.leb, coreSet)) + Ceil(d.reserves.system * MIB, d.leb)
            && 5 * g.staging <= 4 * (g.data * d.leb)
  {
    SumLebsConcat(d.leb, deployment, coreSet);
    var g := DataGrowth(d, deployment, coreSet).value;
    DivBounds(g.data * d.leb * 4, 5);
  }

  // Without one, two deployments, the core set, an object being written and the system reserve fit beside the volumes.
  lemma AcceptedWithoutStore(d: Device, deployment: seq<nat>, coreSet: seq<nat>)
    requires d.leb > 0 && d.reserves.store.None? && UbiCapacity(d, deployment, coreSet).None?
    ensures var left := d.available - (d.system + d.data + 2);
            left >= 2 * SumLebs(d.leb, deployment) + SumLebs(d.leb, coreSet)
                    + Max(LargestLebs(d.leb, deployment), LargestLebs(d.leb, coreSet)) + Ceil(d.reserves.system * MIB, d.leb)
  {
  }

  lemma FourProducts(a: nat, b: nat, c: nat, e: nat, store: nat, leb: nat)
    requires a + b + c + e <= store
    ensures a * leb + b * leb + c * leb + e * leb <= store * leb
  {
    MulMonotone(a + b + c + e, store, leb);
    assert (a + b + c + e) * leb == a * leb + b * leb + c * leb + e * leb;
  }

  // In bytes: the free LEBs of an accepted board hold one further deployment and core set, any one of their objects
  // once more, and the system reserve.
  lemma AcceptedHoldsTheBytes(d: Device, deployment: seq<nat>, coreSet: seq<nat>, size: nat)
    requires d.leb > 0 && d.reserves.store.Some? && UbiCapacity(d, deployment, coreSet).None?
    requires size in deployment || size in coreSet
    ensures DataGrowth(d, deployment, coreSet).value.store * d.leb
            >= SumBytes(deployment) + SumBytes(coreSet) + size + d.reserves.system * MIB
  {
    AcceptedWithStore(d, deployment, coreSet);
    hide SumBytes, SumLebs, LargestLebs, UbiCapacity, DataGrowth, Ceil;
    var g := DataGrowth(d, deployment, coreSet).value;
    var one, cores := SumLebs(d.leb, deployment), SumLebs(d.leb, coreSet);
    var largest := Max(LargestLebs(d.leb, deployment), LargestLebs(d.leb, coreSet));
    var reserve := Ceil(d.reserves.system * MIB, d.leb);
    LebsCoverBytes(d.leb, deployment);
    LebsCoverBytes(d.leb, coreSet);
    CeilIsLeast(d.reserves.system * MIB, d.leb, reserve);
    MulMonotone(LargestLebs(d.leb, deployment), largest, d.leb);
    MulMonotone(LargestLebs(d.leb, coreSet), largest, d.leb);
    FourProducts(one, cores, largest, reserve, g.store, d.leb);
  }

  /* -------- Smaller content is accepted too -------- */

  ghost predicate NoLarger(a: seq<nat>, b: seq<nat>) {
    |a| == |b| && forall i | 0 <= i < |a| :: a[i] <= b[i]
  }

  lemma {:induction false} SumsMonotone(leb: nat, a: seq<nat>, b: seq<nat>)
    requires leb > 0 && NoLarger(a, b)
    ensures SumBytes(a) <= SumBytes(b) && SumLebs(leb, a) <= SumLebs(leb, b) && LargestLebs(leb, a) <= LargestLebs(leb, b)
  {
    if a != [] {
      CeilMonotone(a[0], b[0], leb);
      SumsMonotone(leb, a[1..], b[1..]);
    }
  }

  lemma {:induction false} SumBytesConcat(a: seq<nat>, b: seq<nat>)
    ensures SumBytes(a + b) == SumBytes(a) + SumBytes(b)
  {
    if a == [] {
      assert a + b == b;
    } else {
      SumBytesConcat(a[1..], b);
      assert (a + b)[1..] == a[1..] + b;
    }
  }

  // Acceptance is downward closed in the sizes of the objects.
  lemma AcceptanceIsDownwardClosed(d: Device, deployment: seq<nat>, coreSet: seq<nat>, deployment': seq<nat>, coreSet': seq<nat>)
    requires d.leb > 0 && UbiCapacity(d, deployment, coreSet).None?
    requires NoLarger(deployment', deployment) && NoLarger(coreSet', coreSet)
    ensures UbiCapacity(d, deployment', coreSet').None?
  {
    SumsMonotone(d.leb, deployment', deployment);
    SumsMonotone(d.leb, coreSet', coreSet);
    SumLebsConcat(d.leb, deployment, coreSet);
    SumLebsConcat(d.leb, deployment', coreSet');
    SumBytesConcat(deployment, coreSet);
    SumBytesConcat(deployment', coreSet');
    if d.reserves.store.Some? {
      var g, g' := DataGrowth(d, deployment, coreSet).value, DataGrowth(d, deployment', coreSet').value;
      assert g.data <= g'.data;
      UsableMonotone(g.data, g'.data, d.leb);
    }
  }

  lemma UsableMonotone(a: nat, b: nat, leb: nat)
    requires a <= b
    ensures a * leb * 4 / 5 <= b * leb * 4 / 5
  {
    MulMonotone(a, b, leb);
  }

  /* -------- Every later update fits -------- */

  // The LEBs of the deployments a device holds: the current one with its core set, and the fallback kept beside it.
  datatype Held = Held(current: nat, fallback: nat)

  // An update as the device applies it: the fallback collected first, then the new content written beside the current
  // one, which becomes the fallback.
  function Update(s: Held, update: nat): Held {
    Held(update, s.current)
  }

  function Run(s: Held, updates: seq<nat>): Held {
    if updates == [] then s else Update(Run(s, updates[..|updates| - 1]), updates[|updates| - 1])
  }

  // The device holds the last update as its current deployment, and the one before it as the fallback.
  lemma RunHolds(s: Held, updates: seq<nat>)
    ensures updates != [] ==>
      && Run(s, updates).current == updates[|updates| - 1]
      && Run(s, updates).fallback == if |updates| == 1 then s.current else updates[|updates| - 2]
  {
    if |updates| > 1 {
      RunHolds(s, updates[..|updates| - 1]);
    }
  }

  // On an accepted board with a store reserve, over any number of updates each no larger than the factory content,
  // while an update is written there is always room left for an object in flight and the system reserve.
  lemma {:induction false} EveryUpdateFits(d: Device, deployment: seq<nat>, coreSet: seq<nat>, updates: seq<nat>, next: nat)
    requires d.leb > 0 && d.reserves.store.Some? && UbiCapacity(d, deployment, coreSet).None?
    requires var factory := SumLebs(d.leb, deployment) + SumLebs(d.leb, coreSet);
             next <= factory && forall i | 0 <= i < |updates| :: updates[i] <= factory
    ensures var factory := SumLebs(d.leb, deployment) + SumLebs(d.leb, coreSet);
            var g := DataGrowth(d, deployment, coreSet).value;
            var s := Run(Held(factory, 0), updates);
            && s.current <= factory
            && d.system + g.data + 2 + s.current + next
               + Max(LargestLebs(d.leb, deployment), LargestLebs(d.leb, coreSet)) + Ceil(d.reserves.system * MIB, d.leb) <= d.available
    decreases |updates|
  {
    AcceptedWithStore(d, deployment, coreSet);
    if updates != [] {
      EveryUpdateFits(d, deployment, coreSet, updates[..|updates| - 1], next);
    }
  }
}
