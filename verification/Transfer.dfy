// The transfer index (MICAIDX1) and the chunks a release directory publishes (src/release/chunks.ts). Whatever objects
// are published, each is reassembled from the published chunks its index names.
module Transfer {
  import opened Buffers
  import opened Wrappers
  import opened Bytes
  import opened Chunks

  const INDEX_MAGIC: seq<byte> := [0x4d, 0x49, 0x43, 0x41, 0x49, 0x44, 0x58, 0x31] // MICAIDX1
  const INDEX_HEADER := 84
  const INDEX_ENTRY := 68

  datatype Object = Object(sha256: Digest, bytes: seq<byte>)
  datatype Published = Published(sha256: Digest, bytes: seq<byte>)
  datatype Index = Index(sha256: Digest, bytes: nat, chunks: seq<Chunk>)
  datatype Error = OutOfRange

  /* -------- The index -------- */

  // Numbers that fit the fields they are written in; writeUInt32BE and writeBigUInt64BE refuse others.
  predicate Encodable(x: Index) {
    && x.bytes < U64_LIMIT && |x.chunks| < U32_LIMIT
    && forall i | 0 <= i < |x.chunks| :: x.chunks[i].length < U32_LIMIT
  }

  function EntryBytes(c: Chunk): (b: seq<byte>)
    ensures |b| == INDEX_ENTRY
  {
    c.sha256 + BigEndian(c.length, 4)
  }

  function EntriesBytes(cs: seq<Chunk>): (b: seq<byte>)
    ensures |b| == INDEX_ENTRY * |cs|
  {
    if cs == [] then [] else EntriesBytes(cs[..|cs| - 1]) + EntryBytes(cs[|cs| - 1])
  }

  function IndexBytes(x: Index): (b: seq<byte>)
    ensures |b| == INDEX_HEADER + INDEX_ENTRY * |x.chunks|
  {
    INDEX_MAGIC + x.sha256 + BigEndian(x.bytes, 8) + BigEndian(|x.chunks|, 4) + EntriesBytes(x.chunks)
  }

  // In full: a magic, the digest, its length in eight bytes, the number of chunks in four, and each chunk's digest and length.
  lemma IndexStarts(x: Index)
    requires Encodable(x)
    ensures Ascii("MICAIDX1") + x.sha256 + BigEndian(x.bytes, 8) + BigEndian(|x.chunks|, 4) <= IndexBytes(x)
    ensures |IndexBytes(x)| == 84 + 68 * |x.chunks|
  {
    assert INDEX_MAGIC == Ascii("MICAIDX1");
  }

  function DecodeEntry(b: seq<byte>): Option<Chunk>
    requires |b| == INDEX_ENTRY
  {
    if IsHex(b[..64]) then Some(Chunk(b[..64], FromBigEndian(b[64..]))) else None
  }

  function DecodeEntries(b: seq<byte>, n: nat): Option<seq<Chunk>>
    requires |b| == INDEX_ENTRY * n
  {
    if n == 0 then Some([]) else
      var at := INDEX_ENTRY * (n - 1);
      match DecodeEntries(b[..at], n - 1)
      case None => None
      case Some(cs) =>
        match DecodeEntry(b[at..])
        case None => None
        case Some(c) => Some(cs + [c])
  }

  function DecodeIndex(b: seq<byte>): Option<Index> {
    if |b| < INDEX_HEADER || b[..8] != INDEX_MAGIC || !IsHex(b[8..72]) then None else
      var n := FromBigEndian(b[80..84]);
      if |b| != INDEX_HEADER + INDEX_ENTRY * n then None else
        match DecodeEntries(b[INDEX_HEADER..], n)
        case None => None
        case Some(cs) => Some(Index(b[8..72], FromBigEndian(b[72..80]), cs))
  }

  lemma EntryRoundTrip(c: Chunk)
    requires c.length < U32_LIMIT
    ensures DecodeEntry(EntryBytes(c)) == Some(c)
  {
    hide BigEndian, FromBigEndian;
    FixedWidths();
    BigEndianRoundTrip(c.length, 4);
    assert EntryBytes(c)[..64] == c.sha256 && EntryBytes(c)[64..] == BigEndian(c.length, 4);
  }

  lemma {:induction false} EntriesRoundTrip(cs: seq<Chunk>)
    requires forall i | 0 <= i < |cs| :: cs[i].length < U32_LIMIT
    ensures DecodeEntries(EntriesBytes(cs), |cs|) == Some(cs)
  {
    hide EntryBytes, DecodeEntry;
    if cs != [] {
      var n := |cs| - 1;
      EntriesRoundTrip(cs[..n]);
      EntryRoundTrip(cs[n]);
      EntriesSplit(cs);
      assert cs == cs[..n] + [cs[n]];
      hide EntriesBytes;
    }
  }

  lemma EntriesSplit(cs: seq<Chunk>)
    requires cs != []
    ensures var n, b := |cs| - 1, EntriesBytes(cs);
            b[..INDEX_ENTRY * n] == EntriesBytes(cs[..n]) && b[INDEX_ENTRY * n..] == EntryBytes(cs[n])
  {
    hide EntryBytes;
  }

  // An index decodes back to the object's digest, its length and its chunks.
  lemma IndexRoundTrip(x: Index)
    requires Encodable(x)
    ensures DecodeIndex(IndexBytes(x)) == Some(x)
  {
    hide EntriesBytes, DecodeEntries, BigEndian, FromBigEndian;
    var b := IndexBytes(x);
    FixedWidths();
    BigEndianRoundTrip(x.bytes, 8);
    BigEndianRoundTrip(|x.chunks|, 4);
    EntriesRoundTrip(x.chunks);
    assert b[..8] == INDEX_MAGIC && b[8..72] == x.sha256;
    assert b[72..80] == BigEndian(x.bytes, 8) && b[80..84] == BigEndian(|x.chunks|, 4);
    assert b[INDEX_HEADER..] == EntriesBytes(x.chunks);
  }

  method EncodeIndex(x: Index) returns (r: Result<array<byte>, Error>)
    ensures r.Ok? <==> Encodable(x)
    ensures r.Ok? ==> fresh(r.value) && r.value[..] == IndexBytes(x)
  {
    hide EntriesBytes, EntryBytes, BigEndian;
    var out := new byte[INDEX_HEADER + |x.chunks| * INDEX_ENTRY](_ => 0);
    if x.bytes >= U64_LIMIT || |x.chunks| >= U32_LIMIT {
      return Err(OutOfRange);
    }
    Overwrite(out, 0, INDEX_MAGIC);
    Overwrite(out, 8, x.sha256);
    Overwrite(out, 72, BigEndian(x.bytes, 8));
    Overwrite(out, 80, BigEndian(|x.chunks|, 4));
    ghost var header := INDEX_MAGIC + x.sha256 + BigEndian(x.bytes, 8) + BigEndian(|x.chunks|, 4);
    assert out[..INDEX_HEADER] == header;
    var ok := WriteEntries(out, x.chunks);
    if !ok {
      return Err(OutOfRange);
    }
    assert out[..] == out[..INDEX_HEADER] + out[INDEX_HEADER..];
    r := Ok(out);
  }

  method WriteEntries(out: array<byte>, cs: seq<Chunk>) returns (ok: bool)
    requires out.Length == INDEX_HEADER + INDEX_ENTRY * |cs|
    modifies out
    ensures ok <==> forall i | 0 <= i < |cs| :: cs[i].length < U32_LIMIT
    ensures ok ==> out[..INDEX_HEADER] == old(out[..INDEX_HEADER]) && out[INDEX_HEADER..] == EntriesBytes(cs)
  {
    hide EntryBytes, BigEndian;
    for i := 0 to |cs|
      invariant forall k | 0 <= k < i :: cs[k].length < U32_LIMIT
      invariant out[..INDEX_HEADER] == old(out[..INDEX_HEADER])
      invariant out[INDEX_HEADER..INDEX_HEADER + INDEX_ENTRY * i] == EntriesBytes(cs[..i])
    {
      if cs[i].length >= U32_LIMIT {
        return false;
      }
      var at := INDEX_HEADER + INDEX_ENTRY * i;
      ghost var before := out[..at];
      WriteEntry(out, at, cs[i]);
      OneMoreEntry(out[..], before, cs, i);
    }
    assert cs[..|cs|] == cs;
    ok := true;
  }

  lemma OneMoreEntry(out: seq<byte>, before: seq<byte>, cs: seq<Chunk>, i: nat)
    requires i < |cs| && |out| == INDEX_HEADER + INDEX_ENTRY * |cs| && |before| == INDEX_HEADER + INDEX_ENTRY * i
    requires out[..|before|] == before && out[|before|..|before| + INDEX_ENTRY] == EntryBytes(cs[i])
    requires before[INDEX_HEADER..] == EntriesBytes(cs[..i])
    ensures out[..INDEX_HEADER] == before[..INDEX_HEADER]
    ensures out[INDEX_HEADER..INDEX_HEADER + INDEX_ENTRY * (i + 1)] == EntriesBytes(cs[..i + 1])
  {
    hide EntryBytes;
    assert cs[..i + 1][..i] == cs[..i];
    assert out[INDEX_HEADER..|before| + INDEX_ENTRY] == before[INDEX_HEADER..] + out[|before|..|before| + INDEX_ENTRY];
  }

  method WriteEntry(out: array<byte>, at: nat, c: Chunk)
    requires at + INDEX_ENTRY <= out.Length && c.length < U32_LIMIT
    modifies out
    ensures out[..at] == old(out[..at]) && out[at..at + INDEX_ENTRY] == EntryBytes(c)
  {
    Overwrite(out, at, c.sha256);
    Overwrite(out, at + 64, BigEndian(c.length, 4));
    assert out[at..at + INDEX_ENTRY] == out[at..at + 64] + out[at + 64..at + INDEX_ENTRY];
  }

  /* -------- What a release directory publishes -------- */

  function Find(pub: seq<Published>, d: Digest): (r: Option<seq<byte>>)
    ensures r.Some? <==> exists i | 0 <= i < |pub| :: pub[i].sha256 == d
    ensures r.Some? ==> exists i | 0 <= i < |pub| :: pub[i] == Published(d, r.value)
  {
    if pub == [] then None
    else if pub[0].sha256 == d then Some(pub[0].bytes)
    else Find(pub[1..], d)
  }

  // What a device assembles from the published chunks an index names, in order.
  function Assemble(pub: seq<Published>, cs: seq<Chunk>): Option<seq<byte>> {
    if cs == [] then Some([]) else
      match Find(pub, cs[0].sha256)
      case None => None
      case Some(b) =>
        match Assemble(pub, cs[1..])
        case None => None
        case Some(rest) => Some(b + rest)
  }

  // The pieces of the first n objects.
  ghost predicate PieceOf(g: Gear, objects: seq<Object>, p: seq<byte>)
    requires g.Valid()
  {
    exists i | 0 <= i < |objects| :: p in Pieces(g, objects[i].bytes)
  }

  // No two different pieces of these objects share a digest.
  ghost predicate CollisionFree(g: Gear, h: seq<byte> -> Digest, objects: seq<Object>)
    requires g.Valid()
  {
    forall p, q | PieceOf(g, objects, p) && PieceOf(g, objects, q) && h(p) == h(q) :: p == q
  }

  ghost predicate Distinct(pub: seq<Published>) {
    forall i, j | 0 <= i < j < |pub| :: pub[i].sha256 != pub[j].sha256
  }

  // Every published chunk is a piece of an object, under its own digest.
  ghost predicate Sound(g: Gear, h: seq<byte> -> Digest, objects: seq<Object>, pub: seq<Published>)
    requires g.Valid()
  {
    forall i | 0 <= i < |pub| :: PieceOf(g, objects, pub[i].bytes) && h(pub[i].bytes) == pub[i].sha256
  }

  ghost predicate Carries(h: seq<byte> -> Digest, pub: seq<Published>, pieces: seq<seq<byte>>) {
    forall k | 0 <= k < |pieces| :: Find(pub, h(pieces[k])).Some?
  }

  function IndexOf(g: Gear, h: seq<byte> -> Digest, o: Object): Index
    requires g.Valid()
  {
    Index(o.sha256, |o.bytes|, Describe(h, Pieces(g, o.bytes)))
  }

  lemma {:induction false} AssemblePieces(g: Gear, h: seq<byte> -> Digest, objects: seq<Object>, pub: seq<Published>, pieces: seq<seq<byte>>)
    requires g.Valid() && CollisionFree(g, h, objects) && Sound(g, h, objects, pub)
    requires Carries(h, pub, pieces)
    requires forall k | 0 <= k < |pieces| :: PieceOf(g, objects, pieces[k])
    ensures Assemble(pub, Describe(h, pieces)) == Some(Flatten(pieces))
    decreases |pieces|
  {
    if pieces != [] {
      var cs := Describe(h, pieces);
      assert cs[1..] == Describe(h, pieces[1..]);
      assert PieceOf(g, objects, pieces[0]);
      var i :| 0 <= i < |pub| && pub[i] == Published(h(pieces[0]), Find(pub, h(pieces[0])).value);
      assert PieceOf(g, objects, pub[i].bytes);
      AssemblePieces(g, h, objects, pub, pieces[1..]);
    }
  }

  // A release directory that is sound and carries the pieces of an object reproduces the object from its index.
  lemma Reassembles(g: Gear, h: seq<byte> -> Digest, objects: seq<Object>, pub: seq<Published>, i: nat)
    requires g.Valid() && CollisionFree(g, h, objects) && Sound(g, h, objects, pub)
    requires i < |objects| && Carries(h, pub, Pieces(g, objects[i].bytes))
    requires Encodable(IndexOf(g, h, objects[i]))
    ensures var x := DecodeIndex(IndexBytes(IndexOf(g, h, objects[i])));
            x.Some? && x.value.sha256 == objects[i].sha256 && x.value.bytes == |objects[i].bytes|
            && Assemble(pub, x.value.chunks) == Some(objects[i].bytes)
  {
    var pieces := Pieces(g, objects[i].bytes);
    IndexRoundTrip(IndexOf(g, h, objects[i]));
    PiecesPartition(g, objects[i].bytes);
    forall k | 0 <= k < |pieces| ensures PieceOf(g, objects, pieces[k]) {
      assert pieces[k] in Pieces(g, objects[i].bytes);
    }
    AssemblePieces(g, h, objects, pub, pieces);
  }

  lemma {:induction false} FindInPrefix(pub: seq<Published>, more: seq<Published>, d: Digest)
    requires Find(pub, d).Some?
    ensures Find(pub + more, d) == Find(pub, d)
  {
    if pub[0].sha256 != d {
      FindInPrefix(pub[1..], more, d);
      assert (pub + more)[1..] == pub[1..] + more;
    }
  }

  lemma CarriesMore(h: seq<byte> -> Digest, pub: seq<Published>, more: seq<Published>, pieces: seq<seq<byte>>)
    requires Carries(h, pub, pieces)
    ensures Carries(h, pub + more, pieces)
  {
    forall k | 0 <= k < |pieces| ensures Find(pub + more, h(pieces[k])).Some? {
      FindInPrefix(pub, more, h(pieces[k]));
    }
  }

  lemma {:induction false} FlattenPrefix(p: seq<seq<byte>>, k: nat)
    requires k < |p|
    ensures Flatten(p[k..]) == p[k] + Flatten(p[k + 1..])
  {
    assert p[k..][1..] == p[k + 1..];
  }

  // One chunk, published under its digest unless that digest is published already.
  method AddChunk(g: Gear, h: seq<byte> -> Digest, objects: seq<Object>, digest: Digest, piece: seq<byte>, pub: seq<Published>)
      returns (now: seq<Published>)
    requires g.Valid() && digest == h(piece) && PieceOf(g, objects, piece)
    requires Distinct(pub) && Sound(g, h, objects, pub)
    ensures pub <= now && Distinct(now) && Sound(g, h, objects, now) && Find(now, digest).Some?
  {
    hide PieceOf;
    now := pub;
    if Find(pub, digest).None? {
      now := pub + [Published(digest, piece)];
      assert now[|pub|].sha256 == digest;
    }
  }

  // The chunks of one object, each taken from the object's bytes at its offset.
  method AddChunks(g: Gear, h: seq<byte> -> Digest, objects: seq<Object>, i: nat, cs: seq<Chunk>, pub: seq<Published>)
      returns (now: seq<Published>)
    requires g.Valid() && i < |objects|
    requires cs == Describe(h, Pieces(g, objects[i].bytes))
    requires Distinct(pub) && Sound(g, h, objects, pub)
    ensures pub <= now && Distinct(now) && Sound(g, h, objects, now)
    ensures Carries(h, now, Pieces(g, objects[i].bytes))
  {
    hide Pieces, Distinct, Sound, Find, Flatten;
    var bytes := objects[i].bytes;
    ghost var pieces := Pieces(g, bytes);
    PiecesPartition(g, bytes);
    now := pub;
    var offset := 0;
    assert pieces[0..] == pieces && bytes[0..] == bytes;
    for k := 0 to |cs|
      invariant 0 <= offset <= |bytes| && bytes[offset..] == Flatten(pieces[k..])
      invariant pub <= now && Distinct(now) && Sound(g, h, objects, now)
      invariant Carries(h, now, pieces[..k])
    {
      var c := cs[k];
      assert c == Chunk(h(pieces[k]), |pieces[k]|);
      TakeFlattened(bytes, offset, pieces, k);
      assert pieces[k] in pieces;
      var before := now;
      now := AddChunk(g, h, objects, c.sha256, bytes[offset..offset + c.length], now);
      CarriesOneMore(h, before, now, pieces, k);
      offset := offset + c.length;
    }
    assert pieces[..|cs|] == pieces;
  }

  lemma TakeFlattened(bytes: seq<byte>, offset: nat, pieces: seq<seq<byte>>, k: nat)
    requires offset <= |bytes| && k < |pieces| && bytes[offset..] == Flatten(pieces[k..])
    ensures offset + |pieces[k]| <= |bytes|
    ensures bytes[offset..offset + |pieces[k]|] == pieces[k]
    ensures bytes[offset + |pieces[k]|..] == Flatten(pieces[k + 1..])
  {
    FlattenPrefix(pieces, k);
    var n := |pieces[k]|;
    assert bytes[offset..][..n] == pieces[k] && bytes[offset..][n..] == Flatten(pieces[k + 1..]);
  }

  lemma CarriesOneMore(h: seq<byte> -> Digest, before: seq<Published>, now: seq<Published>, pieces: seq<seq<byte>>, k: nat)
    requires before <= now && k < |pieces| && Carries(h, before, pieces[..k]) && Find(now, h(pieces[k])).Some?
    ensures Carries(h, now, pieces[..k + 1])
  {
    CarriesMore(h, before, now[|before|..], pieces[..k]);
    assert before + now[|before|..] == now;
    forall j | 0 <= j < k ensures Find(now, h(pieces[j])).Some? {
      assert pieces[..k][j] == pieces[j];
    }
  }

  datatype Release = Release(indexes: seq<(Digest, seq<byte>)>, chunks: seq<Published>)

  // The index of every object and every distinct chunk they cut into.
  method Publish(g: Gear, h: seq<byte> -> Digest, objects: seq<Object>) returns (r: Result<Release, Error>)
    requires g.Valid()
    ensures r.Ok? <==> forall i | 0 <= i < |objects| :: Encodable(IndexOf(g, h, objects[i]))
    ensures r.Ok? ==> |r.value.indexes| == |objects|
    ensures r.Ok? ==> forall i | 0 <= i < |objects| ::
                        r.value.indexes[i] == (objects[i].sha256, IndexBytes(IndexOf(g, h, objects[i])))
    ensures r.Ok? ==> Distinct(r.value.chunks) && Sound(g, h, objects, r.value.chunks)
    ensures r.Ok? ==> forall i | 0 <= i < |objects| :: Carries(h, r.value.chunks, Pieces(g, objects[i].bytes))
  {
    hide Pieces, IndexBytes, Encodable, Sound, Carries, Distinct;
    var indexes: seq<(Digest, seq<byte>)> := [];
    var chunks: seq<Published> := [];
    NothingPublished(g, h, objects);
    for i := 0 to |objects|
      invariant |indexes| == i
      invariant forall k | 0 <= k < i :: Encodable(IndexOf(g, h, objects[k]))
      invariant forall k | 0 <= k < i :: indexes[k] == (objects[k].sha256, IndexBytes(IndexOf(g, h, objects[k])))
      invariant Distinct(chunks) && Sound(g, h, objects, chunks)
      invariant forall k | 0 <= k < i :: Carries(h, chunks, Pieces(g, objects[k].bytes))
    {
      var o := objects[i];
      var cs := Cut(g, h, o.bytes);
      var encoded := EncodeIndex(Index(o.sha256, |o.bytes|, cs));
      if encoded.Err? {
        assert !Encodable(IndexOf(g, h, objects[i]));
        return Err(OutOfRange);
      }
      indexes := indexes + [(o.sha256, encoded.value[..])];
      var before := chunks;
      chunks := AddChunks(g, h, objects, i, cs, chunks);
      forall k | 0 <= k < i ensures Carries(h, chunks, Pieces(g, objects[k].bytes)) {
        CarriesMore(h, before, chunks[|before|..], Pieces(g, objects[k].bytes));
        assert before + chunks[|before|..] == chunks;
      }
    }
    r := Ok(Release(indexes, chunks));
  }

  lemma NothingPublished(g: Gear, h: seq<byte> -> Digest, objects: seq<Object>)
    requires g.Valid()
    ensures Distinct([]) && Sound(g, h, objects, [])
  {
  }

  // Every object of a published release is reassembled from the published chunks its published index names, unless two
  // different pieces of the objects share a digest.
  lemma ReleaseReproducesItsObjects(g: Gear, h: seq<byte> -> Digest, objects: seq<Object>, release: Release)
    requires g.Valid() && CollisionFree(g, h, objects)
    requires |release.indexes| == |objects|
    requires forall i | 0 <= i < |objects| :: Encodable(IndexOf(g, h, objects[i]))
    requires forall i | 0 <= i < |objects| ::
               release.indexes[i] == (objects[i].sha256, IndexBytes(IndexOf(g, h, objects[i])))
    requires Sound(g, h, objects, release.chunks)
    requires forall i | 0 <= i < |objects| :: Carries(h, release.chunks, Pieces(g, objects[i].bytes))
    ensures forall i | 0 <= i < |objects| ::
              var x := DecodeIndex(release.indexes[i].1);
              x.Some? && Assemble(release.chunks, x.value.chunks) == Some(objects[i].bytes)
  {
    hide Pieces, IndexBytes, Encodable, Sound, Carries, CollisionFree, DecodeIndex, Assemble;
    forall i | 0 <= i < |objects|
      ensures var x := DecodeIndex(release.indexes[i].1);
              x.Some? && Assemble(release.chunks, x.value.chunks) == Some(objects[i].bytes)
    {
      Reassembles(g, h, objects, release.chunks, i);
    }
  }
}
