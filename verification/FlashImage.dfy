// The region writer of assembleFlash (src/image/flash-image.ts): each region's bytes at its offset and the rest of the
// region erased, region by region into a new file.
module FlashImage {
  import opened Wrappers
  import opened Bytes
  import opened FlashLayout

  const ERASED: byte := 0xff

  // What a region is given: None where it is a local build input and none was given.
  type Payload = Option<seq<byte>>

  datatype Error = NoInput | TooLarge

  // writeSync at a position: bytes between the old end and the position read as zero.
  function WriteAt(file: seq<byte>, b: seq<byte>, at: nat): (r: seq<byte>)
    ensures |r| == if b == [] || |file| >= at + |b| then |file| else at + |b|
  {
    if b == [] then file
    else if |file| < at then file + Zeros(at - |file|) + b
    else if |file| < at + |b| then file[..at] + b
    else file[..at] + b + file[at + |b|..]
  }

  // Byte by byte: what is written, then what was there, then zeros.
  lemma WriteAtIs(file: seq<byte>, b: seq<byte>, at: nat, k: nat)
    requires k < |WriteAt(file, b, at)|
    ensures WriteAt(file, b, at)[k] == if at <= k < at + |b| then b[k - at] else if k < |file| then file[k] else 0
  {
  }

  predicate Fits(r: Region, p: Payload) {
    p.Some? && |p.value| <= r.size
  }

  function Filled(r: Region, p: Payload): (b: seq<byte>)
    requires Fits(r, p)
    ensures |b| == r.size
  {
    p.value + Erased(r.size - |p.value|)
  }

  function Erased(n: nat): (b: seq<byte>)
    ensures |b| == n && forall i | 0 <= i < n :: b[i] == ERASED
  {
    seq(n, i => ERASED)
  }

  // The file is the flash: as long, each region's bytes from its start, and erased from their end to the region's.
  ghost predicate IsImage(file: seq<byte>, regions: seq<Region>, payloads: seq<Payload>, size: nat)
    requires |payloads| == |regions|
  {
    && |file| == size
    && forall i, at | 0 <= i < |regions| && regions[i].offset <= at < regions[i].offset + regions[i].size ::
        Holds(file, regions[i], payloads[i], at)
  }

  ghost predicate Holds(file: seq<byte>, r: Region, p: Payload, at: int) {
    && Fits(r, p) && r.offset <= at < |file|
    && file[at] == if at < r.offset + |p.value| then p.value[at - r.offset] else 0xff
  }

  lemma TwoWrites(file: seq<byte>, r: Region, p: Payload)
    requires |file| == r.offset && Fits(r, p)
    ensures WriteAt(WriteAt(file, p.value, r.offset), Erased(r.size - |p.value|), r.offset + |p.value|) == file + Filled(r, p)
  {
    assert file[..r.offset] == file;
    var once := WriteAt(file, p.value, r.offset);
    assert once == file + p.value;
    assert once[..r.offset + |p.value|] == once;
  }

  method WriteRegion(file: seq<byte>, r: Region, p: Payload) returns (more: seq<byte>)
    requires |file| == r.offset && Fits(r, p)
    ensures more == file + Filled(r, p)
  {
    TwoWrites(file, r, p);
    more := WriteAt(file, p.value, r.offset);
    more := WriteAt(more, Erased(r.size - |p.value|), r.offset + |p.value|);
  }

  lemma OneMore(file: seq<byte>, regions: seq<Region>, payloads: seq<Payload>, n: nat)
    requires n < |regions| == |payloads| && Tiles(regions[..n], 0, |file|)
    requires IsImage(file, regions[..n], payloads[..n], |file|)
    requires regions[n].offset == |file| && Fits(regions[n], payloads[n])
    ensures IsImage(file + Filled(regions[n], payloads[n]), regions[..n + 1], payloads[..n + 1], |file| + regions[n].size)
  {
    var more := file + Filled(regions[n], payloads[n]);
    forall i, at | 0 <= i < n + 1 && regions[i].offset <= at < regions[i].offset + regions[i].size
      ensures Holds(more, regions[i], payloads[i], at)
    {
      if i < n {
        assert regions[..n][i] == regions[i] && payloads[..n][i] == payloads[i];
        assert Holds(file, regions[i], payloads[i], at);
      }
    }
    assert forall i | 0 <= i < n + 1 :: regions[..n + 1][i] == regions[i] && payloads[..n + 1][i] == payloads[i];
  }

  // The next region starts where the regions before it end.
  lemma NextOffset(regions: seq<Region>, n: nat, at: nat, size: nat)
    requires n < |regions| && Tiles(regions, 0, size) && Tiles(regions[..n], 0, at)
    ensures regions[n].offset == at
  {
    if regions[n].offset != at {
      OffsetMismatch(regions, n, at, size);
    }
  }

  method WriteRegions(regions: seq<Region>, payloads: seq<Payload>, size: nat) returns (r: Result<seq<byte>, Error>)
    requires |payloads| == |regions| && Tiles(regions, 0, size)
    ensures r.Ok? <==> forall i | 0 <= i < |regions| :: Fits(regions[i], payloads[i])
    ensures r.Ok? ==> IsImage(r.value, regions, payloads, size)
  {
    hide Tiles, IsImage, Filled;
    var file: seq<byte> := [];
    Nothing();
    for i := 0 to |regions|
      invariant Tiles(regions[..i], 0, |file|)
      invariant IsImage(file, regions[..i], payloads[..i], |file|)
      invariant forall j | 0 <= j < i :: Fits(regions[j], payloads[j])
    {
      var region, payload := regions[i], payloads[i];
      NextOffset(regions, i, |file|, size);
      if payload.None? {
        return Err(NoInput);
      }
      if |payload.value| > region.size {
        return Err(TooLarge);
      }
      OneMore(file, regions, payloads, i);
      RegionIsNotEmpty(regions, i, size);
      TilesNext(regions, i);
      file := WriteRegion(file, region, payload);
    }
    assert regions[..|regions|] == regions && payloads[..|regions|] == payloads;
    TilesEnd(regions, 0, |file|, size);
    r := Ok(file);
  }

  lemma Nothing()
    ensures Tiles([], 0, 0) && IsImage([], [], [], 0)
  {
  }

  lemma {:induction false} RegionIsNotEmpty(regions: seq<Region>, i: nat, size: nat)
    requires i < |regions| && Tiles(regions, 0, size)
    ensures regions[i].size > 0
  {
    assert regions[..i] + regions[i..] == regions;
    TilesPrefix(regions[..i], regions[i..], 0, size);
  }

  // The requirements leave no byte of the file open, so what the code writes is the only image there is.
  lemma ImageIsUnique(a: seq<byte>, b: seq<byte>, regions: seq<Region>, payloads: seq<Payload>, size: nat)
    requires |payloads| == |regions| && Tiles(regions, 0, size)
    requires IsImage(a, regions, payloads, size) && IsImage(b, regions, payloads, size)
    ensures a == b
  {
    forall at: nat | at < size ensures a[at] == b[at] {
      EveryByteInOneRegion(regions, 0, size, at);
      var i :| 0 <= i < |regions| && Contains(regions[i], at);
      assert Holds(a, regions[i], payloads[i], at) && Holds(b, regions[i], payloads[i], at);
    }
  }
}
