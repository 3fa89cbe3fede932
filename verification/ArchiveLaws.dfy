// What the readers of an update archive hold it to, said without them: which artifacts, in which order
// (src/image/release-manifest.ts, src/image/component-archive.ts).
module ArchiveLaws {
  import opened Wrappers
  import opened Bytes
  import opened Chunks
  import opened Transfer
  import opened Archive
  import opened ArchiveReaders

  // A digest is written in the digits 0 to 9 and the letters a to f.
  lemma HexDigits(s: seq<byte>)
    ensures IsHex(s) <==> forall i | 0 <= i < |s| :: s[i] in Ascii("0123456789abcdef")
  {
    HexAlphabet();
    hide Ascii;
  }

  // The archive carries an artifact, under its digest and of its length.
  ghost predicate Holds(os: seq<Object>, a: Artifact) {
    exists i | 0 <= i < |os| :: os[i].sha256 == a.sha256 && |os[i].bytes| == a.bytes
  }

  // The artifacts a descriptor names, and those of the core set it names.
  predicate Named(d: Deployment, core: Option<CoreSet>, a: Artifact) {
    || a == d.boot || a == d.support || a == d.supportSignature || a == d.root || a == d.rootSignature
    || (d.coreSet.Some? && a == Artifact(d.coreSet.value.sha256, d.coreSet.value.bytes))
    || (core.Some? && exists i | 0 <= i < |core.value.components| :: a == core.value.components[i].image || a == core.value.components[i].signature)
  }

  ghost predicate NamedDigest(d: Deployment, core: Option<CoreSet>, x: Digest) {
    exists a :: Named(d, core, a) && a.sha256 == x
  }

  ghost predicate ExactlyNamed(os: seq<Object>, d: Deployment, core: Option<CoreSet>) {
    && (forall a | Named(d, core, a) :: Holds(os, a))
    && forall i | 0 <= i < |os| :: NamedDigest(d, core, os[i].sha256)
  }

  // The core set an archive carries is the one its descriptor names: under its digest, of its length and identity.
  ghost predicate CarriesCore(t: Trust, os: seq<Object>, ref: CoreRef, core: CoreSet) {
    exists i | 0 <= i < |os| ::
      && os[i].sha256 == ref.sha256 && t.coreSet(os[i].bytes) == Some(core)
      && ref == CoreRef(t.identity(core), t.h(os[i].bytes), |os[i].bytes|)
  }

  // A number of four bytes and one of eight, the most significant first.
  function Word(n: nat): seq<byte>
    requires n < U32_LIMIT
  {
    [n / 0x100_0000, n / 0x1_0000 % 256, n / 0x100 % 256, n % 256]
  }

  function DoubleWord(n: nat): seq<byte>
    requires n < U64_LIMIT
  {
    Word(n / U32_LIMIT) + Word(n % U32_LIMIT)
  }

  // The format: a magic, the envelope behind its length, the number of objects, and each behind its digest and length.
  function Layout(envelope: seq<byte>, os: seq<Object>): seq<byte>
    requires |envelope| < U32_LIMIT && |os| < U32_LIMIT && forall i | 0 <= i < |os| :: |os[i].bytes| < U64_LIMIT
  {
    Ascii("MICAUPD1") + Word(|envelope|) + envelope + Word(|os|) + ObjectsLayout(os)
  }

  function ObjectsLayout(os: seq<Object>): seq<byte>
    requires forall i | 0 <= i < |os| :: |os[i].bytes| < U64_LIMIT
  {
    if os == [] then [] else (os[0].sha256 + DoubleWord(|os[0].bytes|) + os[0].bytes) + ObjectsLayout(os[1..])
  }

  lemma LayoutIs(envelope: seq<byte>, os: seq<Object>)
    requires |envelope| < U32_LIMIT && |os| < U32_LIMIT && forall i | 0 <= i < |os| :: |os[i].bytes| < U64_LIMIT
    ensures Layout(envelope, os) == ArchiveBytes(envelope, os)
  {
    hide BigEndian, ObjectsBytes, ObjectsLayout;
    assert ARCHIVE_MAGIC == Ascii("MICAUPD1");
    FourBytes(|envelope|);
    FourBytes(|os|);
    ObjectsLayoutIs(os);
  }

  lemma {:induction false} ObjectsLayoutIs(os: seq<Object>)
    requires forall i | 0 <= i < |os| :: |os[i].bytes| < U64_LIMIT
    ensures ObjectsLayout(os) == ObjectsBytes(os)
  {
    hide BigEndian;
    if os != [] {
      EightBytes(|os[0].bytes|);
      FourBytes(|os[0].bytes| / U32_LIMIT);
      FourBytes(|os[0].bytes| % U32_LIMIT);
      ObjectsLayoutIs(os[1..]);
    }
  }

  // Every object hashes to its digest, and its length fits the format.
  ghost predicate AllHash(h: seq<byte> -> Digest, os: seq<Object>) {
    forall i | 0 <= i < |os| :: h(os[i].bytes) == os[i].sha256 && |os[i].bytes| < U64_LIMIT
  }

  lemma HashIsIntact(h: seq<byte> -> Digest, os: seq<Object>)
    ensures AllHash(h, os) <==> AllIntact(h, os)
  {
    forall i | 0 <= i < |os| ensures Intact(h, os[i]) <==> h(os[i].bytes) == os[i].sha256 && |os[i].bytes| < U64_LIMIT {
    }
  }

  // An archive's bytes: an envelope of 1 to 16384 bytes that authenticates as the deployment, objects that are intact and in
  // byte order, nothing after them; and exactly what the deployment names, with a core set also what that names, in at most
  // 128 objects.
  ghost predicate Conforms(t: Trust, file: seq<byte>, d: Deployment, envelope: seq<byte>, os: seq<Object>, core: Option<CoreSet>) {
    && 1 <= |envelope| <= 16384 && |os| < U32_LIMIT
    && t.deployment(envelope) == Some(d) && AllHash(t.h, os) && InByteOrder(os)
    && file == Layout(envelope, os)
    && HasCore(t, d, os, core) && ExactlyNamed(os, d, core)
  }

  // A core set where the deployment names one, carried, in at most 128 objects.
  ghost predicate HasCore(t: Trust, d: Deployment, os: seq<Object>, core: Option<CoreSet>) {
    core.Some? == d.coreSet.Some? && (core.Some? ==> |os| <= 128 && CarriesCore(t, os, d.coreSet.value, core.value))
  }

  lemma BaseIs(d: Deployment, a: Artifact)
    ensures a in Base(d) <==> Named(d, None, a)
  {
  }

  lemma {:induction false} CoreIs(cs: seq<Component>, a: Artifact)
    ensures a in CoreArtifacts(cs) <==> exists i | 0 <= i < |cs| :: a == cs[i].image || a == cs[i].signature
  {
    if cs != [] {
      CoreIs(cs[1..], a);
      assert forall i | 0 <= i < |cs| - 1 :: cs[1..][i] == cs[i + 1];
      if i :| 0 <= i < |cs| - 1 && (a == cs[1..][i].image || a == cs[1..][i].signature) {
        assert a == cs[i + 1].image || a == cs[i + 1].signature;
      }
      if i :| 0 <= i < |cs| && (a == cs[i].image || a == cs[i].signature) {
        assert i > 0 ==> cs[1..][i - 1] == cs[i];
      }
    }
  }

  function AllNamed(d: Deployment, core: Option<CoreSet>): seq<Artifact> {
    Base(d) + if core.Some? then CoreArtifacts(core.value.components) else []
  }

  lemma AllNamedIs(d: Deployment, core: Option<CoreSet>, a: Artifact)
    ensures a in AllNamed(d, core) <==> Named(d, core, a)
  {
    BaseIs(d, a);
    if core.Some? {
      CoreIs(core.value.components, a);
    }
    hide Base, CoreArtifacts;
  }

  ghost predicate DigestIn(named: seq<Artifact>, x: Digest) {
    exists a :: a in named && a.sha256 == x
  }

  lemma CarriedIsNamed(os: seq<Object>, named: seq<Artifact>)
    requires Ascending(os) && IsNameMap(Lengths(os), named)
    ensures forall a | a in named :: Holds(os, a)
    ensures forall i | 0 <= i < |os| :: DigestIn(named, os[i].sha256)
  {
    hide Ascending, Lengths;
    LengthsAre(os);
    forall a | a in named ensures Holds(os, a) {
      var i :| 0 <= i < |named| && named[i] == a;
      var k :| 0 <= k < |os| && os[k].sha256 == a.sha256;
    }
    forall i | 0 <= i < |os| ensures DigestIn(named, os[i].sha256) {
      var k :| 0 <= k < |named| && named[k].sha256 == os[i].sha256;
      assert named[k] in named;
    }
  }

  lemma NamedIsCarried(os: seq<Object>, named: seq<Artifact>)
    requires Ascending(os) && (forall a | a in named :: Holds(os, a))
    requires forall i | 0 <= i < |os| :: DigestIn(named, os[i].sha256)
    ensures IsNameMap(Lengths(os), named)
  {
    hide Ascending, Lengths;
    LengthsAre(os);
    forall i | 0 <= i < |named| ensures named[i].sha256 in Lengths(os) && Lengths(os)[named[i].sha256] == named[i].bytes {
      assert named[i] in named;
      var k :| 0 <= k < |os| && os[k].sha256 == named[i].sha256 && |os[k].bytes| == named[i].bytes;
    }
    forall x | x in Lengths(os) ensures exists i | 0 <= i < |named| :: named[i].sha256 == x {
      var k :| 0 <= k < |os| && os[k].sha256 == x;
      var a :| a in named && a.sha256 == x;
      var i :| 0 <= i < |named| && named[i] == a;
    }
  }

  // The lengths an archive carries are those named exactly when it carries exactly what is named.
  lemma NamesAreCarried(os: seq<Object>, d: Deployment, core: Option<CoreSet>)
    requires Ascending(os)
    ensures IsNameMap(Lengths(os), AllNamed(d, core)) <==> ExactlyNamed(os, d, core)
  {
    hide Ascending, Lengths, AllNamed, Named, Holds, IsNameMap, DigestIn, NamedDigest;
    var named := AllNamed(d, core);
    forall a ensures a in named <==> Named(d, core, a) {
      AllNamedIs(d, core, a);
    }
    forall x: Digest ensures DigestIn(named, x) <==> NamedDigest(d, core, x) {
      DigestsAgree(d, core, named, x);
    }
    if IsNameMap(Lengths(os), named) {
      CarriedIsNamed(os, named);
    }
    if ExactlyNamed(os, d, core) {
      NamedIsCarried(os, named);
    }
  }

  lemma DigestsAgree(d: Deployment, core: Option<CoreSet>, named: seq<Artifact>, x: Digest)
    requires forall a :: a in named <==> Named(d, core, a)
    ensures DigestIn(named, x) <==> NamedDigest(d, core, x)
  {
    hide Named;
  }

  /* -------- What is verified -------- */

  lemma BytesOfIs(os: seq<Object>, d: Digest)
    ensures BytesOf(os, d).Some? ==> exists i | 0 <= i < |os| :: os[i].sha256 == d && os[i].bytes == BytesOf(os, d).value
  {
    if os != [] && os[|os| - 1].sha256 != d {
      BytesOfIs(os[..|os| - 1], d);
    }
  }

  lemma VerifiedNamesOnly(t: Trust, d: Deployment, os: seq<Object>)
    requires VerifiedObjects(t, d, os)
    ensures InByteOrder(os)
    ensures exists core :: HasCore(t, d, os, core) && ExactlyNamed(os, d, core)
  {
    hide Ascending, Lengths, AllAdmitted, Named, ExactlyNamed, InByteOrder, Base, CoreArtifacts, IsNameMap;
    AscendingIsByteOrder(os);
    var names := NameAll(map[], Base(d)).value;
    assert IsNameMap(map[], []) by { NothingNamed(); }
    NameAllIs(map[], [], Base(d), names);
    assert [] + Base(d) == Base(d);
    if d.coreSet.None? {
      assert AllNamed(d, None) == Base(d);
      NamesAreCarried(os, d, None);
    } else {
      var ref := d.coreSet.value;
      BytesOfIs(os, ref.sha256);
      var envelope := BytesOf(os, ref.sha256).value;
      var core := t.coreSet(envelope).value;
      NameAllIs(names, Base(d), CoreArtifacts(core.components), Lengths(os));
      NamesAreCarried(os, d, Some(core));
      assert CarriesCore(t, os, ref, core);
      assert HasCore(t, d, os, Some(core));
    }
  }

  lemma NothingNamed()
    ensures IsNameMap(map[], [])
  {
  }

  lemma BaseIsNamed(os: seq<Object>, d: Deployment, core: Option<CoreSet>) returns (names: map<Digest, nat>)
    requires Ascending(os) && IsNameMap(Lengths(os), AllNamed(d, core))
    ensures NameAll(map[], Base(d)) == Some(names) && IsNameMap(names, Base(d))
    ensures forall x | x in names :: x in Lengths(os) && Lengths(os)[x] == names[x]
    ensures core.None? ==> names == Lengths(os)
    ensures core.Some? ==> NameAll(names, CoreArtifacts(core.value.components)) == Some(Lengths(os))
  {
    hide Ascending, Lengths, NameAll, Base, CoreArtifacts;
    var named, more := AllNamed(d, core), if core.Some? then CoreArtifacts(core.value.components) else [];
    assert named == Base(d) + more && [] + Base(d) == Base(d);
    forall x, y | x in Base(d) && y in Base(d) && x.sha256 == y.sha256 ensures x.bytes == y.bytes {
      var i :| 0 <= i < |Base(d)| && Base(d)[i] == x;
      var j :| 0 <= j < |Base(d)| && Base(d)[j] == y;
      assert named[i] == x && named[j] == y;
    }
    NothingNamed();
    NameAllSome(map[], [], Base(d));
    names := NameAll(map[], Base(d)).value;
    NameAllIs(map[], [], Base(d), names);
    NamesKept(names, Base(d), more, Lengths(os));
    if core.Some? {
      NameAllIs(names, Base(d), more, Lengths(os));
    } else {
      assert named == Base(d);
      SameNames(names, Lengths(os), Base(d));
    }
  }

  lemma NamedIsVerified(t: Trust, d: Deployment, os: seq<Object>, core: Option<CoreSet>)
    requires t.Valid() && InByteOrder(os) && ExactlyNamed(os, d, core)
    requires HasCore(t, d, os, core)
    ensures VerifiedObjects(t, d, os)
  {
    hide Ascending, Lengths, Named, InByteOrder, Base, CoreArtifacts, IsNameMap, NameAll, Trust.Valid;
    AscendingIsByteOrder(os);
    NamesAreCarried(os, d, core);
    var names := BaseIsNamed(os, d, core);
    LengthsSize(os);
    FewerNames(names, Lengths(os));
    NamedIsAdmitted(t, d, os, core, names);
    if core.Some? {
      CoreIsMatched(t, d, os, core.value, names);
    }
    hide AllAdmitted, CoreMatches, ExactlyNamed, CarriesCore;
  }

  lemma CoreIsMatched(t: Trust, d: Deployment, os: seq<Object>, core: CoreSet, names: map<Digest, nat>)
    requires Ascending(os) && d.coreSet.Some? && CarriesCore(t, os, d.coreSet.value, core)
    requires NameAll(names, CoreArtifacts(core.components)) == Some(Lengths(os))
    ensures CoreMatches(t, d.coreSet.value, names, os)
  {
    hide Ascending, Lengths, NameAll, CoreArtifacts, BytesOf;
    var ref := d.coreSet.value;
    var i :| 0 <= i < |os| && os[i].sha256 == ref.sha256 && t.coreSet(os[i].bytes) == Some(core)
      && ref == CoreRef(t.identity(core), t.h(os[i].bytes), |os[i].bytes|);
    BytesOfObject(os, i);
  }

  lemma NamedIsAdmitted(t: Trust, d: Deployment, os: seq<Object>, core: Option<CoreSet>, names: map<Digest, nat>)
    requires t.Valid() && Ascending(os) && ExactlyNamed(os, d, core) && IsNameMap(names, Base(d))
    requires HasCore(t, d, os, core)
    requires forall x | x in names :: x in Lengths(os) && Lengths(os)[x] == names[x]
    ensures AllAdmitted(names, core.Some?, os)
  {
    hide Ascending, Lengths, Base, Named;
    LengthsAre(os);
    forall i | 0 <= i < |os| ensures Admits(names, core.Some?, os[i]) {
      if os[i].sha256 !in names {
        var a :| Named(d, core, a) && a.sha256 == os[i].sha256;
        BaseIs(d, a);
        assert a !in Base(d);
        assert Holds(os, a);
        var k :| 0 <= k < |os| && os[k].sha256 == a.sha256 && |os[k].bytes| == a.bytes;
        assert |os[k].bytes| == |os[i].bytes|;
        CoreHasSize(t, d, os, core, a);
      }
    }
  }

  lemma CoreHasSize(t: Trust, d: Deployment, os: seq<Object>, core: Option<CoreSet>, a: Artifact)
    requires t.Valid() && Named(d, core, a) && !Named(d, None, a)
    requires HasCore(t, d, os, core)
    ensures core.Some? && IsSize(a.bytes)
  {
  }

  // verifyArchive accepts exactly the archives that conform, for the deployment their envelope states.
  lemma VerifiedExactly(t: Trust, file: seq<byte>, d: Deployment)
    requires t.Valid()
    ensures Verified(t, file, d) <==> exists envelope, os, core :: Conforms(t, file, d, envelope, os, core)
  {
    hide VerifiedObjects, TakeArchive, ArchiveBytes, Layout, AllIntact, AllHash, InByteOrder, ExactlyNamed, HasCore, Trust.Valid;
    if Verified(t, file, d) {
      var c := TakeArchive(t.h, file).value;
      TakeArchiveIsExact(t.h, file, c);
      VerifiedNamesOnly(t, d, c.objects);
      var core :| HasCore(t, d, c.objects, core) && ExactlyNamed(c.objects, d, core);
      assert ArchiveBytes(c.envelope, c.objects) + [] == ArchiveBytes(c.envelope, c.objects);
      LayoutOfIntact(t.h, c.envelope, c.objects);
      assert Conforms(t, file, d, c.envelope, c.objects, core);
    }
    if envelope, os, core :| Conforms(t, file, d, envelope, os, core) {
      LayoutOfIntact(t.h, envelope, os);
      TakeArchiveIsExact(t.h, file, Contents(envelope, os, []));
      assert ArchiveBytes(envelope, os) + [] == ArchiveBytes(envelope, os);
      NamedIsVerified(t, d, os, core);
    }
  }

  lemma LayoutOfIntact(h: seq<byte> -> Digest, envelope: seq<byte>, os: seq<Object>)
    requires |envelope| < U32_LIMIT && |os| < U32_LIMIT
    ensures AllHash(h, os) <==> AllIntact(h, os)
    ensures AllHash(h, os) ==> (forall i | 0 <= i < |os| :: |os[i].bytes| < U64_LIMIT) && Layout(envelope, os) == ArchiveBytes(envelope, os)
  {
    HashIsIntact(h, os);
    hide Layout, ArchiveBytes;
    if AllHash(h, os) {
      LayoutIs(envelope, os);
    }
  }

  /* -------- What is unpacked -------- */

  // An unpacked store holds each of the five artifacts, by name, with the bytes of its digest and length.
  lemma UnpacksTheFive(t: Trust, file: seq<byte>, d: Deployment, store: map<Digest, seq<byte>>)
    requires Unpacks(t, file, d, store)
    ensures forall a | a == d.boot || a == d.support || a == d.supportSignature || a == d.root || a == d.rootSignature ::
              a.sha256 in store && |store[a.sha256]| == a.bytes && t.h(store[a.sha256]) == a.sha256
  {
    hide Store, TakeArchive, ArchiveBytes, SafeSizes, Unrepeated;
    var c := TakeArchive(t.h, file).value;
    TakeArchiveIsExact(t.h, file, c);
    StoreIs(c.objects);
    forall a | a in DeploymentArtifacts(d) ensures a.sha256 in store && |store[a.sha256]| == a.bytes && t.h(store[a.sha256]) == a.sha256 {
      var i :| 0 <= i < 5 && DeploymentArtifacts(d)[i] == a;
      assert Placed(store, DeploymentArtifacts(d)[i]);
      var k :| 0 <= k < |c.objects| && c.objects[k].sha256 == a.sha256;
      assert Intact(t.h, c.objects[k]);
    }
    TheFive(d);
    hide DeploymentArtifacts;
  }

  lemma TheFive(d: Deployment)
    ensures forall a :: a in DeploymentArtifacts(d) <==> a == d.boot || a == d.support || a == d.supportSignature || a == d.root || a == d.rootSignature
  {
  }

  // And an unpacked core set each component's image and signature.
  lemma CoreUnpacksBoth(t: Trust, file: seq<byte>, core: CoreSet, store: map<Digest, seq<byte>>, i: nat)
    requires CoreUnpacks(t, file, core, store) && i < |core.components|
    ensures forall a | a == core.components[i].image || a == core.components[i].signature ::
              a.sha256 in store && |store[a.sha256]| == a.bytes && t.h(store[a.sha256]) == a.sha256
  {
    CoreUnpacksIsExact(t, file, core, store);
    var c := core.components[i];
    CoreIs(core.components, c.image);
    CoreIs(core.components, c.signature);
    hide CoreArtifacts, TakeAllClamped, Store, Unrepeated;
  }
}
