// The readers of an update archive that hold it to its signed descriptor: unpackArchive and unpackCoreArchive
// (src/image/component-archive.ts) and verifyArchive (src/image/release-manifest.ts), against what the writer emits.
// Signature checks are parameters: what an envelope authenticates as, if anything.
module ArchiveReaders {
  import opened Arithmetic
  import opened Wrappers
  import opened Bytes
  import opened Chunks
  import opened Transfer
  import opened Archive

  const MAX_SAFE := 9007199254740991
  const MAX_ENVELOPE := 16384
  const MAX_OBJECTS := 128
  const MAX_CORE_COMPONENTS := 16

  datatype CoreRef = CoreRef(identity: seq<byte>, sha256: Digest, bytes: nat)

  datatype Deployment = Deployment(
    boot: Artifact, support: Artifact, supportSignature: Artifact, root: Artifact, rootSignature: Artifact,
    coreSet: Option<CoreRef>, rest: seq<byte>)

  datatype Component = Component(image: Artifact, signature: Artifact)
  datatype CoreSet = CoreSet(components: seq<Component>, rest: seq<byte>)

  // SHA-256, what an envelope authenticates as, and the id, channel and generation of a core set.
  datatype Trust = Trust(
    h: seq<byte> -> Digest,
    deployment: seq<byte> -> Option<Deployment>,
    coreSet: seq<byte> -> Option<CoreSet>,
    identity: CoreSet -> seq<byte>)
  {
    // What parsing an authenticated payload guarantees of it.
    ghost predicate Valid() {
      && deployment([]).None?
      && forall e: seq<byte> :: coreSet(e).Some? ==> ValidComponents(coreSet(e).value.components)
    }

    function RefOf(core: CoreSet, envelope: seq<byte>): CoreRef {
      CoreRef(identity(core), h(envelope), |envelope|)
    }
  }

  ghost predicate ValidComponents(cs: seq<Component>) {
    && 0 < |cs| <= MAX_CORE_COMPONENTS
    && forall i | 0 <= i < |cs| :: IsSize(cs[i].image.bytes) && IsSize(cs[i].signature.bytes)
  }

  predicate IsSize(n: nat) {
    0 < n <= MAX_SAFE
  }

  function DeploymentArtifacts(d: Deployment): (a: seq<Artifact>)
    ensures |a| == 5
  {
    [d.boot, d.support, d.supportSignature, d.root, d.rootSignature]
  }

  // The artifacts a descriptor names itself.
  function Base(d: Deployment): seq<Artifact> {
    DeploymentArtifacts(d) + (if d.coreSet.Some? then [Artifact(d.coreSet.value.sha256, d.coreSet.value.bytes)] else [])
  }

  function CoreArtifacts(cs: seq<Component>): seq<Artifact> {
    if cs == [] then [] else [cs[0].image, cs[0].signature] + CoreArtifacts(cs[1..])
  }

  /* -------- Named lengths -------- */

  // Each artifact named in turn, refused where a digest is named with two lengths.
  function NameAll(m: map<Digest, nat>, a: seq<Artifact>): Option<map<Digest, nat>>
    decreases |a|
  {
    if a == [] then Some(m)
    else if a[0].sha256 in m && m[a[0].sha256] != a[0].bytes then None
    else NameAll(m[a[0].sha256 := a[0].bytes], a[1..])
  }

  ghost predicate IsNameMap(m: map<Digest, nat>, a: seq<Artifact>) {
    && (forall i | 0 <= i < |a| :: a[i].sha256 in m && m[a[i].sha256] == a[i].bytes)
    && (forall d | d in m :: exists i | 0 <= i < |a| :: a[i].sha256 == d)
  }

  function Lengths(os: seq<Object>): map<Digest, nat> {
    if os == [] then map[] else Lengths(os[..|os| - 1])[os[|os| - 1].sha256 := |os[|os| - 1].bytes|]
  }

  lemma {:induction false} NameAllIs(m: map<Digest, nat>, before: seq<Artifact>, a: seq<Artifact>, all: map<Digest, nat>)
    requires IsNameMap(m, before)
    ensures NameAll(m, a) == Some(all) <==> IsNameMap(all, before + a)
    decreases |a|
  {
    if a == [] {
      assert before + a == before;
      if IsNameMap(all, before) {
        SameNames(m, all, before);
      }
    } else {
      var x := a[0];
      assert (before + [x]) + a[1..] == before + a;
      if x.sha256 in m && m[x.sha256] != x.bytes {
        var i :| 0 <= i < |before| && before[i].sha256 == x.sha256;
        assert (before + a)[i] == before[i] && (before + a)[|before|] == x;
      } else {
        NamesExtend(m, before, x);
        NameAllIs(m[x.sha256 := x.bytes], before + [x], a[1..], all);
      }
    }
  }

  lemma NamesExtend(m: map<Digest, nat>, a: seq<Artifact>, x: Artifact)
    requires IsNameMap(m, a) && (x.sha256 in m ==> m[x.sha256] == x.bytes)
    ensures IsNameMap(m[x.sha256 := x.bytes], a + [x])
  {
    var n, b := m[x.sha256 := x.bytes], a + [x];
    forall d | d in n ensures exists i | 0 <= i < |b| :: b[i].sha256 == d {
      if d == x.sha256 {
        assert b[|a|].sha256 == d;
      } else {
        var i :| 0 <= i < |a| && a[i].sha256 == d;
        assert b[i].sha256 == d;
      }
    }
  }

  lemma SameNames(m: map<Digest, nat>, n: map<Digest, nat>, a: seq<Artifact>)
    requires IsNameMap(m, a) && IsNameMap(n, a)
    ensures m == n
  {
    forall d | d in m ensures d in n && n[d] == m[d] {
      var i :| 0 <= i < |a| && a[i].sha256 == d;
    }
    forall d | d in n ensures d in m {
      var i :| 0 <= i < |a| && a[i].sha256 == d;
    }
  }

  lemma {:induction false} LengthsAre(os: seq<Object>)
    requires Ascending(os)
    ensures forall d :: d in Lengths(os) <==> exists i | 0 <= i < |os| :: os[i].sha256 == d
    ensures forall i | 0 <= i < |os| :: os[i].sha256 in Lengths(os) && Lengths(os)[os[i].sha256] == |os[i].bytes|
    decreases |os|
  {
    hide Less;
    if os != [] {
      var init, last := os[..|os| - 1], os[|os| - 1];
      LengthsAre(init);
      forall i | 0 <= i < |init| ensures init[i].sha256 != last.sha256 {
        assert Less(os[i].sha256, os[|os| - 1].sha256);
        LessIsStrict(last.sha256, last.sha256, last.sha256);
      }
      assert forall i | 0 <= i < |init| :: os[i] == init[i];
    }
  }

  /* -------- verifyArchive -------- */

  // An object's header beside what the descriptor names: named with its length, or, beside a core set, not named yet.
  predicate Admits(names: map<Digest, nat>, withCore: bool, o: Object) {
    if o.sha256 in names then names[o.sha256] == |o.bytes| else withCore && IsSize(|o.bytes|)
  }

  ghost predicate AllAdmitted(names: map<Digest, nat>, withCore: bool, os: seq<Object>) {
    forall i | 0 <= i < |os| :: Admits(names, withCore, os[i])
  }

  predicate CountAllowed(names: map<Digest, nat>, withCore: bool, count: nat) {
    if withCore then |names| <= count <= MAX_OBJECTS else count == |names|
  }

  // The bytes carried under a digest.
  function BytesOf(os: seq<Object>, d: Digest): Option<seq<byte>> {
    if os == [] then None
    else if os[|os| - 1].sha256 == d then Some(os[|os| - 1].bytes)
    else BytesOf(os[..|os| - 1], d)
  }

  // The carried core set is the one the descriptor names, and with its components the archive carries exactly what is named.
  predicate CoreMatches(t: Trust, ref: CoreRef, names: map<Digest, nat>, os: seq<Object>) {
    match BytesOf(os, ref.sha256)
    case None => false
    case Some(envelope) =>
      match t.coreSet(envelope)
      case None => false
      case Some(core) =>
        t.RefOf(core, envelope) == ref && NameAll(names, CoreArtifacts(core.components)) == Some(Lengths(os))
  }

  predicate NamesMatch(t: Trust, d: Deployment, names: map<Digest, nat>, os: seq<Object>) {
    if d.coreSet.None? then names == Lengths(os) else CoreMatches(t, d.coreSet.value, names, os)
  }

  ghost predicate VerifiedObjects(t: Trust, d: Deployment, os: seq<Object>) {
    match NameAll(map[], Base(d))
    case None => false
    case Some(names) =>
      && CountAllowed(names, d.coreSet.Some?, |os|)
      && Ascending(os) && AllAdmitted(names, d.coreSet.Some?, os)
      && NamesMatch(t, d, names, os)
  }

  // An archive that is well formed, intact and without trailing bytes, whose envelope authenticates as d and whose
  // objects, in ascending digest order, are exactly those that d and its core set name.
  ghost predicate Verified(t: Trust, file: seq<byte>, d: Deployment) {
    match TakeArchive(t.h, file)
    case None => false
    case Some(c) =>
      && c.trailing == [] && 0 < |c.envelope| <= MAX_ENVELOPE
      && t.deployment(c.envelope) == Some(d)
      && VerifiedObjects(t, d, c.objects)
  }

  predicate Follows(previous: Option<Digest>, d: Digest) {
    previous.None? || Less(previous.value, d)
  }

  // One object of the loop: its header is held to what is named and to the order before its bytes are read.
  method VerifyObject(t: Trust, file: seq<byte>, offset: nat, names: map<Digest, nat>, withCore: bool, previous: Option<Digest>)
      returns (r: Option<Object>, at: nat)
    requires offset <= |file|
    ensures r.Some? ==> at <= |file| && TakeObject(t.h, file[offset..]) == Some((r.value, file[at..]))
    ensures r.Some? ==> Admits(names, withCore, r.value) && Follows(previous, r.value.sha256)
    ensures r.None? ==> match TakeObject(t.h, file[offset..])
                        case None => true
                        case Some((o, _)) => !Admits(names, withCore, o) || !Follows(previous, o.sha256)
  {
    at := offset;
    ghost var b := file[offset..];
    if at + OBJECT_HEADER > |file| {
      return None, at;
    }
    var sha := file[at..at + 64];
    var bytes := FromBigEndian(file[at + 64..at + OBJECT_HEADER]);
    assert b[..64] == sha && b[64..72] == file[at + 64..at + OBJECT_HEADER];
    at := at + OBJECT_HEADER;
    if !IsHex(sha) || !Follows(previous, sha)
       || !((sha in names && names[sha] == bytes) || (withCore && sha !in names && IsSize(bytes))) {
      return None, at;
    }
    if at + bytes > |file| {
      return None, at;
    }
    var content := file[at..at + bytes];
    assert b[OBJECT_HEADER..OBJECT_HEADER + bytes] == content;
    if t.h(content) != sha {
      return None, at;
    }
    at := at + bytes;
    assert b[OBJECT_HEADER + bytes..] == file[at..];
    r := Some(Object(sha, content));
  }

  // What the loop has read: admitted objects in ascending order, the last of them the previous one.
  ghost predicate ReadSoFar(names: map<Digest, nat>, withCore: bool, os: seq<Object>, previous: Option<Digest>) {
    && Ascending(os) && AllAdmitted(names, withCore, os)
    && (if os == [] then previous.None? else previous == Some(os[|os| - 1].sha256))
  }

  lemma ReadOneMore(names: map<Digest, nat>, withCore: bool, os: seq<Object>, previous: Option<Digest>, o: Object)
    requires ReadSoFar(names, withCore, os, previous)
    requires Admits(names, withCore, o) && Follows(previous, o.sha256)
    ensures ReadSoFar(names, withCore, os + [o], Some(o.sha256))
  {
    hide Less, Admits;
    var all := os + [o];
    forall i, j | 0 <= i < j < |all| ensures Less(all[i].sha256, all[j].sha256) {
      if j == |os| && i < |os| - 1 {
        LessIsStrict(os[i].sha256, os[|os| - 1].sha256, o.sha256);
      }
    }
  }

  // An object that is refused refuses every archive that carries it there.
  lemma RefusedObject(names: map<Digest, nat>, withCore: bool, os: seq<Object>, previous: Option<Digest>, o: Object, more: seq<Object>)
    requires ReadSoFar(names, withCore, os, previous)
    requires !Admits(names, withCore, o) || !Follows(previous, o.sha256)
    ensures !(Ascending(os + [o] + more) && AllAdmitted(names, withCore, os + [o] + more))
  {
    hide Less, Admits;
    var all := os + [o] + more;
    assert all[|os|] == o;
    if os != [] {
      assert all[|os| - 1] == os[|os| - 1];
    }
  }

  method VerifyObjects(t: Trust, file: seq<byte>, start: nat, count: nat, names: map<Digest, nat>, withCore: bool)
      returns (r: Option<seq<Object>>, at: nat)
    requires start <= |file|
    ensures r.Some? ==> at <= |file| && TakeObjects(t.h, file[start..], count) == Some((r.value, file[at..]))
    ensures r.Some? ==> Ascending(r.value) && AllAdmitted(names, withCore, r.value)
    ensures r.None? ==> match TakeObjects(t.h, file[start..], count)
                        case None => true
                        case Some((os, _)) => !(Ascending(os) && AllAdmitted(names, withCore, os))
  {
    hide TakeObject, TakeObjects, ReadSoFar, Ascending, AllAdmitted, Admits, Follows;
    at := start;
    var objects: seq<Object> := [];
    var previous: Option<Digest> := None;
    ghost var whole := TakeObjects(t.h, file[at..], count);
    PrefixedNone(whole);
    NothingRead(names, withCore);
    for i := 0 to count
      invariant 0 <= at <= |file|
      invariant ReadSoFar(names, withCore, objects, previous)
      invariant whole == Prefixed(objects, TakeObjects(t.h, file[at..], count - i))
    {
      PrefixedStep(t.h, objects, file[at..], count - i);
      var o, next := VerifyObject(t, file, at, names, withCore, previous);
      if o.None? {
        if whole.Some? {
          var (bad, rest) := TakeObject(t.h, file[at..]).value;
          RefusedObject(names, withCore, objects, previous, bad, TakeObjects(t.h, rest, count - i - 1).value.0);
        }
        return None, at;
      }
      ReadOneMore(names, withCore, objects, previous, o.value);
      objects := objects + [o.value];
      previous := Some(o.value.sha256);
      at := next;
    }
    TakeNothing(t.h, file[at..]);
    ReadAll(names, withCore, objects, previous);
    r := Some(objects);
  }

  lemma NothingRead(names: map<Digest, nat>, withCore: bool)
    ensures ReadSoFar(names, withCore, [], None)
  {
  }

  lemma ReadAll(names: map<Digest, nat>, withCore: bool, os: seq<Object>, previous: Option<Digest>)
    requires ReadSoFar(names, withCore, os, previous)
    ensures Ascending(os) && AllAdmitted(names, withCore, os)
  {
  }

  // The reader accepts exactly the verified archives, and returns their deployment.
  method VerifyArchive(t: Trust, file: seq<byte>) returns (r: Option<Deployment>)
    ensures forall d :: r == Some(d) <==> Verified(t, file, d)
  {
    hide TakeObjects, Lengths, NameAll, Ascending, AllAdmitted, NamesMatch;
    if |file| < 12 || file[..8] != ARCHIVE_MAGIC {
      return None;
    }
    var size := FromBigEndian(file[8..12]);
    if size == 0 || size > MAX_ENVELOPE || 12 + size > |file| {
      return None;
    }
    var d := t.deployment(file[12..12 + size]);
    if d.None? {
      return None;
    }
    var names := NameAll(map[], Base(d.value));
    if names.None? {
      return None;
    }
    var at := 12 + size;
    if at + 4 > |file| {
      return None;
    }
    var count := FromBigEndian(file[at..at + 4]);
    if !CountAllowed(names.value, d.value.coreSet.Some?, count) {
      CountTaken(t.h, file);
      return None;
    }
    var objects, end := VerifyObjects(t, file, at + 4, count, names.value, d.value.coreSet.Some?);
    CountTaken(t.h, file);
    if objects.None? || end != |file| || !NamesMatch(t, d.value, names.value, objects.value) {
      return None;
    }
    r := d;
  }

  lemma CountTaken(h: seq<byte> -> Digest, file: seq<byte>)
    ensures TakeArchive(h, file).Some? ==>
              var at := 12 + FromBigEndian(file[8..12]);
              |TakeArchive(h, file).value.objects| == FromBigEndian(file[at..at + 4])
  {
    if TakeArchive(h, file).Some? {
      var at := 12 + FromBigEndian(file[8..12]);
      ObjectsTaken(h, file[at + 4..], FromBigEndian(file[at..at + 4]));
    }
  }

  /* -------- What the writer emits is what the readers accept -------- */

  function ArtifactsOf(carried: seq<Carried>): (a: seq<Artifact>)
    ensures |a| == |carried| && forall i | 0 <= i < |a| :: a[i] == carried[i].artifact
  {
    seq(|carried|, i requires 0 <= i < |carried| => carried[i].artifact)
  }

  // Everything a full archive carries: the descriptor's artifacts, its core set's envelope and the components' objects.
  function FullArtifacts(d: Deployment, core: Option<CoreSet>): seq<Artifact> {
    Base(d) + (if core.Some? then CoreArtifacts(core.value.components) else [])
  }

  lemma {:induction false} CoreArtifactsAre(cs: seq<Component>)
    requires forall i | 0 <= i < |cs| :: IsSize(cs[i].image.bytes) && IsSize(cs[i].signature.bytes)
    ensures |CoreArtifacts(cs)| == 2 * |cs|
    ensures forall i | 0 <= i < |CoreArtifacts(cs)| :: IsSize(CoreArtifacts(cs)[i].bytes)
  {
    if cs != [] {
      CoreArtifactsAre(cs[1..]);
    }
  }

  lemma {:induction false} NameAllSome(m: map<Digest, nat>, before: seq<Artifact>, a: seq<Artifact>)
    requires IsNameMap(m, before)
    requires forall x, y | x in before + a && y in before + a && x.sha256 == y.sha256 :: x.bytes == y.bytes
    ensures NameAll(m, a).Some?
    decreases |a|
  {
    if a != [] {
      var x := a[0];
      assert (before + [x]) + a[1..] == before + a;
      if x.sha256 in m {
        var i :| 0 <= i < |before| && before[i].sha256 == x.sha256;
        assert before[i] in before + a && x in before + a;
      }
      NamesExtend(m, before, x);
      NameAllSome(m[x.sha256 := x.bytes], before + [x], a[1..]);
    }
  }

  // The lengths carried are the names of the artifacts carried.
  lemma LengthsNameTheArtifacts(h: seq<byte> -> Digest, envelope: seq<byte>, carried: seq<Carried>)
    requires Writable(h, envelope, carried)
    ensures forall i | 0 <= i < |Sorted(Firsts(carried))| :: Sorted(Firsts(carried))[i].content.Some?
    ensures IsNameMap(Lengths(Written(carried)), ArtifactsOf(carried))
  {
    hide Sorted, Firsts, Lengths, Ascending, IsNamed, IsCarried;
    WrittenObjects(h, envelope, carried);
    var os, a := Written(carried), ArtifactsOf(carried);
    LengthsAre(os);
    var m := Lengths(os);
    forall i | 0 <= i < |a| ensures a[i].sha256 in m && m[a[i].sha256] == a[i].bytes {
      assert carried[i] in carried;
      CarriedLength(os, a[i]);
    }
    forall d | d in m ensures exists i | 0 <= i < |a| :: a[i].sha256 == d {
      var k :| 0 <= k < |os| && os[k].sha256 == d;
      assert os[k] in os;
      NamedIndex(carried, os[k]);
    }
  }

  lemma CarriedLength(os: seq<Object>, a: Artifact)
    requires Ascending(os) && IsCarried(os, a)
    ensures a.sha256 in Lengths(os) && Lengths(os)[a.sha256] == a.bytes
  {
    LengthsAre(os);
    var o :| o in os && o.sha256 == a.sha256 && |o.bytes| == a.bytes;
    var i :| 0 <= i < |os| && os[i] == o;
  }

  lemma NamedIndex(carried: seq<Carried>, o: Object)
    requires IsNamed(carried, o)
    ensures exists i | 0 <= i < |ArtifactsOf(carried)| :: ArtifactsOf(carried)[i].sha256 == o.sha256
  {
    var c :| c in carried && Key(c) == o.sha256;
    var i :| 0 <= i < |carried| && carried[i] == c;
    assert ArtifactsOf(carried)[i].sha256 == o.sha256;
  }

  lemma {:induction false} LengthsSize(os: seq<Object>)
    requires Ascending(os)
    ensures |Lengths(os)| == |os|
    decreases |os|
  {
    hide Less;
    if os != [] {
      var init, last := os[..|os| - 1], os[|os| - 1];
      LengthsSize(init);
      LengthsAre(init);
      forall i | 0 <= i < |init| ensures init[i].sha256 != last.sha256 {
        assert Less(os[i].sha256, os[|os| - 1].sha256);
        LessIsStrict(last.sha256, last.sha256, last.sha256);
      }
      assert Lengths(os).Keys == Lengths(init).Keys + {last.sha256};
    }
  }

  lemma FewerNames(m: map<Digest, nat>, n: map<Digest, nat>)
    requires forall d | d in m :: d in n
    ensures |m| <= |n|
  {
    SubsetSize(m.Keys, n.Keys);
  }

  lemma {:induction false} SubsetSize(a: set<Digest>, b: set<Digest>)
    requires a <= b
    ensures |a| <= |b|
  {
    if a != {} {
      var x :| x in a;
      SubsetSize(a - {x}, b - {x});
    }
  }

  lemma {:induction false} FirstsAreFewer(cs: seq<Carried>)
    ensures |Firsts(cs)| <= |cs|
    decreases |cs|
  {
    if cs != [] {
      FirstsAreFewer(cs[..|cs| - 1]);
    }
  }

  // The files of a full archive as packArchive carries them: the artifacts the descriptor and its core set name, the
  // core set being the one the descriptor names, read from the envelope's own file.
  ghost predicate PacksFull(t: Trust, envelope: seq<byte>, d: Deployment, core: Option<(seq<byte>, CoreSet)>, carried: seq<Carried>) {
    && t.deployment(envelope) == Some(d)
    && (d.coreSet.Some? <==> core.Some?)
    && ArtifactsOf(carried) == FullArtifacts(d, if core.Some? then Some(core.value.1) else None)
    && (core.Some? ==>
          && t.coreSet(core.value.0) == Some(core.value.1)
          && t.RefOf(core.value.1, core.value.0) == d.coreSet.value
          && forall c | c in carried && Key(c) == d.coreSet.value.sha256 :: c.content == Some(core.value.0))
  }

  lemma ConsistentArtifacts(carried: seq<Carried>, x: Artifact, y: Artifact)
    requires Consistent(carried) && x in ArtifactsOf(carried) && y in ArtifactsOf(carried) && x.sha256 == y.sha256
    ensures x.bytes == y.bytes
  {
    var i :| 0 <= i < |carried| && carried[i].artifact == x;
    var j :| 0 <= j < |carried| && carried[j].artifact == y;
    assert carried[i] in carried && carried[j] in carried;
  }

  // The descriptor's own names, out of the artifacts of a full archive.
  lemma BaseNames(carried: seq<Carried>, base: seq<Artifact>, more: seq<Artifact>, all: map<Digest, nat>)
    requires Consistent(carried) && ArtifactsOf(carried) == base + more
    requires IsNameMap(all, base + more)
    ensures NameAll(map[], base).Some?
    ensures var names := NameAll(map[], base).value;
            && IsNameMap(names, base)
            && NameAll(names, more) == Some(all)
            && (forall d | d in names :: d in all && all[d] == names[d])
  {
    hide NameAll, Consistent, ArtifactsOf;
    assert [] + base == base;
    forall x, y | x in base && y in base && x.sha256 == y.sha256 ensures x.bytes == y.bytes {
      assert x in base + more && y in base + more;
      ConsistentArtifacts(carried, x, y);
    }
    NameAllSome(map[], [], base);
    var names := NameAll(map[], base).value;
    NameAllIs(map[], [], base, names);
    NameAllIs(names, base, more, all);
    NamesKept(names, base, more, all);
  }

  // More names change none of those before.
  lemma NamesKept(names: map<Digest, nat>, base: seq<Artifact>, more: seq<Artifact>, all: map<Digest, nat>)
    requires IsNameMap(names, base) && IsNameMap(all, base + more)
    ensures forall d | d in names :: d in all && all[d] == names[d]
  {
    forall d | d in names ensures d in all && all[d] == names[d] {
      var i :| 0 <= i < |base| && base[i].sha256 == d;
      assert (base + more)[i] == base[i];
    }
  }

  lemma CoreSizes(t: Trust, core: (seq<byte>, CoreSet))
    requires t.Valid() && t.coreSet(core.0) == Some(core.1)
    ensures ValidComponents(core.1.components)
  {
  }

  // Every object of the archive is admitted.
  lemma WrittenAdmitted(os: seq<Object>, base: seq<Artifact>, more: seq<Artifact>, names: map<Digest, nat>, withCore: bool)
    requires Ascending(os) && IsNameMap(Lengths(os), base + more) && IsNameMap(names, base)
    requires forall d | d in names :: d in Lengths(os) && Lengths(os)[d] == names[d]
    requires more != [] ==> withCore
    requires forall i | 0 <= i < |more| :: IsSize(more[i].bytes)
    ensures AllAdmitted(names, withCore, os)
  {
    hide Less, Lengths;
    LengthsAre(os);
    forall i | 0 <= i < |os| ensures Admits(names, withCore, os[i]) {
      var d := os[i].sha256;
      if d !in names {
        var k :| 0 <= k < |base + more| && (base + more)[k].sha256 == d;
        assert forall j | 0 <= j < |base| :: base[j].sha256 in names && (base + more)[j] == base[j];
        assert more[k - |base|].sha256 == d;
      }
    }
  }

  lemma {:induction false} BytesOfObject(os: seq<Object>, i: nat)
    requires Ascending(os) && i < |os|
    ensures BytesOf(os, os[i].sha256) == Some(os[i].bytes)
    decreases |os|
  {
    hide Less;
    var n := |os| - 1;
    if i < n {
      LessIsStrict(os[n].sha256, os[n].sha256, os[n].sha256);
      assert Less(os[i].sha256, os[n].sha256);
      BytesOfObject(os[..n], i);
    }
  }

  // The bytes archived under a digest are those of a file carried under it.
  lemma WrittenBytes(h: seq<byte> -> Digest, envelope: seq<byte>, carried: seq<Carried>, d: Digest, b: seq<byte>)
    requires Writable(h, envelope, carried)
    requires exists c :: c in carried && Key(c) == d
    requires forall c | c in carried && Key(c) == d :: c.content == Some(b)
    ensures forall i | 0 <= i < |Sorted(Firsts(carried))| :: Sorted(Firsts(carried))[i].content.Some?
    ensures BytesOf(Written(carried), d) == Some(b)
  {
    hide Sorted, Firsts, BytesOf, Ascending, Names;
    WrittenObjects(h, envelope, carried);
    SortedMatch(h, carried);
    FirstsCover(carried);
    var c :| c in carried && Key(c) == d;
    var f := Get(Firsts(carried), d).value;
    var s := Sorted(Firsts(carried));
    assert f in s && f in carried;
    var i :| 0 <= i < |s| && s[i] == f;
    BytesOfObject(Written(carried), i);
  }

  // Every full archive the writer emits is accepted, with or without a core set, and gives back the deployment packed.
  lemma FullArchiveVerifies(t: Trust, envelope: seq<byte>, d: Deployment, core: Option<(seq<byte>, CoreSet)>, carried: seq<Carried>)
    requires t.Valid() && |envelope| <= MAX_ENVELOPE
    requires PacksFull(t, envelope, d, core, carried) && Writable(t.h, envelope, carried)
    ensures forall i | 0 <= i < |Sorted(Firsts(carried))| :: Sorted(Firsts(carried))[i].content.Some?
    ensures Verified(t, ArchiveBytes(envelope, Written(carried)), d)
  {
    hide Sorted, Firsts, Lengths, NameAll, Ascending, AllAdmitted, IsNameMap, Names, BytesOf, TakeArchive, ArchiveBytes, AllIntact, Consistent;
    ReadersTakeWhatIsWritten(t.h, envelope, carried);
    WrittenObjects(t.h, envelope, carried);
    LengthsNameTheArtifacts(t.h, envelope, carried);
    var os, base := Written(carried), Base(d);
    var more := if core.Some? then CoreArtifacts(core.value.1.components) else [];
    assert ArtifactsOf(carried) == base + more;
    BaseNames(carried, base, more, Lengths(os));
    var names := NameAll(map[], base).value;
    if core.Some? {
      CoreSizes(t, core.value);
      CoreArtifactsAre(core.value.1.components);
    }
    WrittenAdmitted(os, base, more, names, core.Some?);
    LengthsSize(os);
    FullCount(t, envelope, d, core, carried, names);
    if core.Some? {
      FullCore(t, envelope, d, core.value, carried);
    } else {
      NameAllNothing(names, Lengths(os));
    }
    assert VerifiedObjects(t, d, os);
  }

  lemma NameAllNothing(names: map<Digest, nat>, all: map<Digest, nat>)
    requires NameAll(names, []) == Some(all)
    ensures names == all
  {
  }

  lemma FullCount(t: Trust, envelope: seq<byte>, d: Deployment, core: Option<(seq<byte>, CoreSet)>, carried: seq<Carried>, names: map<Digest, nat>)
    requires t.Valid() && PacksFull(t, envelope, d, core, carried) && Writable(t.h, envelope, carried)
    requires forall i | 0 <= i < |Sorted(Firsts(carried))| :: Sorted(Firsts(carried))[i].content.Some?
    requires var os := Written(carried); |Lengths(os)| == |os| && forall x | x in names :: x in Lengths(os)
    requires core.None? ==> NameAll(names, []) == Some(Lengths(Written(carried)))
    ensures CountAllowed(names, core.Some?, |Written(carried)|)
  {
    hide Sorted, Firsts, Lengths, NameAll;
    if core.Some? {
      FewerNames(names, Lengths(Written(carried)));
      CoreSizes(t, core.value);
      CoreArtifactsAre(core.value.1.components);
      FirstsAreFewer(carried);
      SortedMatch(t.h, carried);
    } else {
      NameAllNothing(names, Lengths(Written(carried)));
    }
  }

  lemma FullCore(t: Trust, envelope: seq<byte>, d: Deployment, core: (seq<byte>, CoreSet), carried: seq<Carried>)
    requires PacksFull(t, envelope, d, Some(core), carried) && Writable(t.h, envelope, carried)
    ensures forall i | 0 <= i < |Sorted(Firsts(carried))| :: Sorted(Firsts(carried))[i].content.Some?
    ensures BytesOf(Written(carried), d.coreSet.value.sha256) == Some(core.0)
  {
    hide Sorted, Firsts, BytesOf;
    assert Base(d)[5].sha256 == d.coreSet.value.sha256;
    assert ArtifactsOf(carried)[5] == Base(d)[5];
    assert carried[5] in carried && Key(carried[5]) == d.coreSet.value.sha256;
    WrittenBytes(t.h, envelope, carried, d.coreSet.value.sha256, core.0);
  }

  /* -------- unpackArchive -------- */

  ghost predicate Unrepeated(os: seq<Object>) {
    forall i, j | 0 <= i < j < |os| :: os[i].sha256 != os[j].sha256
  }

  ghost predicate SafeSizes(os: seq<Object>) {
    forall i | 0 <= i < |os| :: |os[i].bytes| <= MAX_SAFE
  }

  // The objects as files of the work directory, by digest.
  function Store(os: seq<Object>): map<Digest, seq<byte>> {
    if os == [] then map[] else Store(os[..|os| - 1])[os[|os| - 1].sha256 := os[|os| - 1].bytes]
  }

  predicate Placed(store: map<Digest, seq<byte>>, a: Artifact) {
    a.sha256 in store && |store[a.sha256]| == a.bytes
  }

  // What unpackArchive demands: unlike the other readers it looks at nothing after the last object, and asks for the
  // deployment's five artifacts without refusing further objects.
  ghost predicate Unpacks(t: Trust, file: seq<byte>, d: Deployment, store: map<Digest, seq<byte>>) {
    match TakeArchive(t.h, file)
    case None => false
    case Some(c) =>
      && t.deployment(c.envelope) == Some(d)
      && Unrepeated(c.objects) && SafeSizes(c.objects)
      && store == Store(c.objects)
      && forall i | 0 <= i < 5 :: Placed(store, DeploymentArtifacts(d)[i])
  }

  lemma {:induction false} StoreKeys(os: seq<Object>, d: Digest)
    ensures d in Store(os) <==> exists i | 0 <= i < |os| :: os[i].sha256 == d
    decreases |os|
  {
    if os != [] {
      var init := os[..|os| - 1];
      StoreKeys(init, d);
      if d in Store(init) {
        var i :| 0 <= i < |init| && init[i].sha256 == d;
        assert os[i].sha256 == d;
      }
      if i :| 0 <= i < |os| && os[i].sha256 == d {
        assert i < |init| ==> init[i].sha256 == d;
      }
    }
  }

  lemma {:induction false} StoreValue(os: seq<Object>, i: nat)
    requires Unrepeated(os) && i < |os|
    ensures os[i].sha256 in Store(os) && Store(os)[os[i].sha256] == os[i].bytes
    decreases |os|
  {
    if i < |os| - 1 {
      StoreValue(os[..|os| - 1], i);
    }
  }

  lemma StoreIs(os: seq<Object>)
    requires Unrepeated(os)
    ensures forall d :: d in Store(os) <==> exists i | 0 <= i < |os| :: os[i].sha256 == d
    ensures forall i | 0 <= i < |os| :: os[i].sha256 in Store(os) && Store(os)[os[i].sha256] == os[i].bytes
  {
    hide Store, Unrepeated;
    forall d ensures d in Store(os) <==> exists i | 0 <= i < |os| :: os[i].sha256 == d {
      StoreKeys(os, d);
    }
    forall i | 0 <= i < |os| ensures os[i].sha256 in Store(os) && Store(os)[os[i].sha256] == os[i].bytes {
      StoreValue(os, i);
    }
  }

  lemma StoreSnoc(os: seq<Object>, o: Object)
    ensures Store(os + [o]) == Store(os)[o.sha256 := o.bytes]
  {
    assert (os + [o])[..|os|] == os;
  }

  lemma UnrepeatedSnoc(os: seq<Object>, o: Object)
    requires Unrepeated(os) && SafeSizes(os)
    ensures Unrepeated(os + [o]) && SafeSizes(os + [o]) <==> o.sha256 !in Store(os) && |o.bytes| <= MAX_SAFE
  {
    StoreIs(os);
    var all := os + [o];
    if o.sha256 !in Store(os) && |o.bytes| <= MAX_SAFE {
      assert forall i | 0 <= i < |os| :: all[i] == os[i] && os[i].sha256 != o.sha256;
    } else if o.sha256 in Store(os) {
      var i :| 0 <= i < |os| && os[i].sha256 == o.sha256;
      assert all[i].sha256 == all[|os|].sha256;
    } else {
      assert all[|os|] == o;
    }
  }

  lemma RepeatedPrefix(os: seq<Object>, more: seq<Object>)
    requires !(Unrepeated(os) && SafeSizes(os))
    ensures !(Unrepeated(os + more) && SafeSizes(os + more))
  {
    var all := os + more;
    assert forall i | 0 <= i < |os| :: all[i] == os[i];
  }

  // The loop over the objects: each file created anew, so a digest that repeats is refused.
  method UnpackObjects(t: Trust, file: seq<byte>, start: nat, count: nat)
      returns (ok: bool, store: map<Digest, seq<byte>>, ghost os: seq<Object>, ghost at: nat)
    requires start <= |file|
    ensures ok ==> at <= |file| && TakeObjects(t.h, file[start..], count) == Some((os, file[at..]))
    ensures ok ==> Unrepeated(os) && SafeSizes(os) && store == Store(os)
    ensures !ok ==> match TakeObjects(t.h, file[start..], count)
                    case None => true
                    case Some((all, _)) => !(Unrepeated(all) && SafeSizes(all))
  {
    hide TakeObject, TakeObjects, Store, Unrepeated, SafeSizes;
    var offset := start;
    ok, store, os, at := false, map[], [], start;
    EmptyStore();
    ghost var whole := TakeObjects(t.h, file[offset..], count);
    PrefixedNone(whole);
    for i := 0 to count
      invariant 0 <= offset <= |file| && !ok
      invariant Unrepeated(os) && SafeSizes(os) && store == Store(os)
      invariant whole == Prefixed(os, TakeObjects(t.h, file[offset..], count - i))
    {
      PrefixedStep(t.h, os, file[offset..], count - i);
      var o, next := ReadObject(t.h, file, offset);
      if o.Err? {
        return;
      }
      UnrepeatedSnoc(os, o.value);
      if |o.value.bytes| > MAX_SAFE || o.value.sha256 in store {
        if whole.Some? {
          RepeatedPrefix(os + [o.value], TakeObjects(t.h, file[next..], count - i - 1).value.0);
        }
        return;
      }
      StoreSnoc(os, o.value);
      store := store[o.value.sha256 := o.value.bytes];
      os := os + [o.value];
      offset := next;
    }
    TakeNothing(t.h, file[offset..]);
    ok, at := true, offset;
  }

  lemma EmptyStore()
    ensures Store([]) == map[] && Unrepeated([]) && SafeSizes([])
  {
  }

  method UnpackArchive(t: Trust, file: seq<byte>) returns (r: Option<(Deployment, map<Digest, seq<byte>>)>)
    ensures r.Some? ==> Unpacks(t, file, r.value.0, r.value.1)
    ensures r.None? ==> forall d, store :: !Unpacks(t, file, d, store)
  {
    hide TakeObjects, Store, Unrepeated, SafeSizes;
    if |file| < 12 || file[..8] != ARCHIVE_MAGIC {
      return None;
    }
    var size := FromBigEndian(file[8..12]);
    var at := 12 + size;
    if at + 4 > |file| {
      return None;
    }
    var d := t.deployment(file[12..at]);
    if d.None? {
      return None;
    }
    var count := FromBigEndian(file[at..at + 4]);
    var ok, store;
    ghost var os, end;
    ok, store, os, end := UnpackObjects(t, file, at + 4, count);
    if !ok {
      return None;
    }
    var a := DeploymentArtifacts(d.value);
    for i := 0 to 5
      invariant forall k | 0 <= k < i :: Placed(store, a[k])
    {
      if !Placed(store, a[i]) {
        return None;
      }
    }
    r := Some((d.value, store));
  }

  // From the writer's archive of the five artifacts, with or without a core set, unpackArchive recovers every file.
  lemma FullArchiveUnpacks(t: Trust, envelope: seq<byte>, d: Deployment, core: Option<(seq<byte>, CoreSet)>, carried: seq<Carried>)
    requires PacksFull(t, envelope, d, core, carried) && Writable(t.h, envelope, carried)
    requires forall c | c in carried :: c.artifact.bytes <= MAX_SAFE
    ensures forall i | 0 <= i < |Sorted(Firsts(carried))| :: Sorted(Firsts(carried))[i].content.Some?
    ensures Unpacks(t, ArchiveBytes(envelope, Written(carried)), d, Store(Written(carried)))
  {
    hide Sorted, Firsts, Store, TakeArchive, ArchiveBytes, IsCarried, IsNamed, AllIntact;
    ReadersTakeWhatIsWritten(t.h, envelope, carried);
    WrittenObjects(t.h, envelope, carried);
    var os := Written(carried);
    AscendingUnrepeated(os);
    StoreIs(os);
    WrittenSizes(carried, os);
    forall i | 0 <= i < 5 ensures Placed(Store(os), DeploymentArtifacts(d)[i]) {
      assert ArtifactsOf(carried)[i] == FullArtifacts(d, if core.Some? then Some(core.value.1) else None)[i] == DeploymentArtifacts(d)[i];
      assert carried[i] in carried;
      CarriedIsPlaced(os, carried[i].artifact);
    }
  }

  lemma AscendingUnrepeated(os: seq<Object>)
    requires Ascending(os)
    ensures Unrepeated(os)
  {
    hide Less;
    forall i, j | 0 <= i < j < |os| ensures os[i].sha256 != os[j].sha256 {
      assert Less(os[i].sha256, os[j].sha256);
      LessIsStrict(os[i].sha256, os[i].sha256, os[i].sha256);
    }
  }

  lemma CarriedIsPlaced(os: seq<Object>, a: Artifact)
    requires Unrepeated(os) && IsCarried(os, a)
    ensures Placed(Store(os), a)
  {
    StoreIs(os);
    var o :| o in os && o.sha256 == a.sha256 && |o.bytes| == a.bytes;
    var i :| 0 <= i < |os| && os[i] == o;
  }

  lemma WrittenSizes(carried: seq<Carried>, os: seq<Object>)
    requires Names(carried, os) && Unrepeated(os)
    requires forall c | c in carried :: c.artifact.bytes <= MAX_SAFE
    ensures SafeSizes(os)
  {
    forall i | 0 <= i < |os| ensures |os[i].bytes| <= MAX_SAFE {
      assert os[i] in os && IsNamed(carried, os[i]);
      var c :| c in carried && Key(c) == os[i].sha256;
      assert IsCarried(os, c.artifact);
      var o :| o in os && o.sha256 == Key(c) && |o.bytes| == c.artifact.bytes;
      var j :| 0 <= j < |os| && os[j] == o;
      assert i == j by {
        SameIndex(os, i, j);
      }
    }
  }

  lemma SameIndex(os: seq<Object>, i: nat, j: nat)
    requires Unrepeated(os) && i < |os| && j < |os| && os[i].sha256 == os[j].sha256
    ensures i == j
  {
  }

  // Bytes after the last object change nothing for unpackArchive, where archiveObjects and verifyArchive refuse them.
  lemma TrailingBytesSeparateTheReaders(t: Trust, file: seq<byte>, extra: seq<byte>, d: Deployment, store: map<Digest, seq<byte>>)
    requires Unpacks(t, file, d, store) && extra != []
    ensures Unpacks(t, file + extra, d, store)
    ensures TakeArchive(t.h, file + extra).value.trailing != []
    ensures forall x :: !Verified(t, file + extra, x)
  {
    hide Store, ArchiveBytes, Unrepeated, SafeSizes;
    var c := TakeArchive(t.h, file).value;
    TakeArchiveIsExact(t.h, file, c);
    assert file + extra == ArchiveBytes(c.envelope, c.objects) + (c.trailing + extra);
    TakeArchiveIsExact(t.h, file + extra, c.(trailing := c.trailing + extra));
  }

  /* -------- unpackCoreArchive -------- */

  // One object as this reader takes it: a length past the end of the archive is cut to what is there.
  function TakeClamped(h: seq<byte> -> Digest, b: seq<byte>): (r: Option<(Object, seq<byte>)>)
    ensures r.Some? ==> |r.value.1| < |b|
  {
    if |b| < OBJECT_HEADER then None else
      var end := Min(OBJECT_HEADER + FromBigEndian(b[64..72]), |b|);
      if !IsHex(b[..64]) || h(b[OBJECT_HEADER..end]) != b[..64] then None
      else Some((Object(b[..64], b[OBJECT_HEADER..end]), b[end..]))
  }

  function TakeAllClamped(h: seq<byte> -> Digest, b: seq<byte>, n: nat): Option<(seq<Object>, seq<byte>)> {
    if n == 0 then Some(([], b)) else
      match TakeClamped(h, b)
      case None => None
      case Some((o, rest)) =>
        match TakeAllClamped(h, rest, n - 1)
        case None => None
        case Some((os, tail)) => Some(([o] + os, tail))
  }

  function NamedDigests(a: seq<Artifact>): set<Digest> {
    set x | x in a :: x.sha256
  }

  ghost predicate CoreUnpacks(t: Trust, file: seq<byte>, core: CoreSet, store: map<Digest, seq<byte>>) {
    && |file| >= 12 && file[..8] == ARCHIVE_MAGIC
    && var at := 12 + FromBigEndian(file[8..12]);
       && at + 4 <= |file|
       && t.coreSet(file[12..at]) == Some(core)
       && var taken := TakeAllClamped(t.h, file[at + 4..], FromBigEndian(file[at..at + 4]));
          && taken.Some? && taken.value.1 == []
          && Unrepeated(taken.value.0) && store == Store(taken.value.0)
          && var named := CoreArtifacts(core.components);
             |store| == |NamedDigests(named)| && forall i | 0 <= i < |named| :: Placed(store, named[i])
  }

  lemma PrefixedClampedStep(h: seq<byte> -> Digest, read: seq<Object>, b: seq<byte>, n: nat)
    requires n > 0
    ensures TakeClamped(h, b).None? ==> Prefixed(read, TakeAllClamped(h, b, n)).None?
    ensures TakeClamped(h, b).Some? ==>
              var (o, rest) := TakeClamped(h, b).value;
              Prefixed(read, TakeAllClamped(h, b, n)) == Prefixed(read + [o], TakeAllClamped(h, rest, n - 1))
  {
    hide TakeClamped;
    if TakeClamped(h, b).Some? {
      var (o, rest) := TakeClamped(h, b).value;
      var more := TakeAllClamped(h, rest, n - 1);
      if more.Some? {
        assert read + ([o] + more.value.0) == (read + [o]) + more.value.0;
      }
    }
  }

  lemma SliceOfSuffix(s: seq<byte>, o: nat, i: nat, j: nat)
    requires i <= j && o + j <= |s|
    ensures s[o..][i..j] == s[o + i..o + j] && s[o..][j..] == s[o + j..]
  {
  }

  method ClampedObject(h: seq<byte> -> Digest, archive: seq<byte>, offset: nat) returns (r: Option<Object>, at: nat)
    requires offset + OBJECT_HEADER <= |archive|
    ensures r.Some? ==> at <= |archive| && TakeClamped(h, archive[offset..]) == Some((r.value, archive[at..]))
    ensures r.None? ==> TakeClamped(h, archive[offset..]).None?
  {
    ghost var b := archive[offset..];
    var sha := archive[offset..offset + 64];
    var length := FromBigEndian(archive[offset + 64..offset + OBJECT_HEADER]);
    at := Min(offset + OBJECT_HEADER + length, |archive|);
    var content := archive[offset + OBJECT_HEADER..at];
    SliceOfSuffix(archive, offset, 0, 64);
    SliceOfSuffix(archive, offset, 64, OBJECT_HEADER);
    SliceOfSuffix(archive, offset, OBJECT_HEADER, at - offset);
    if !IsHex(sha) || h(content) != sha {
      return None, at;
    }
    r := Some(Object(sha, content));
  }

  // The loop over the objects, which also stops where no further header fits.
  method ClampedObjects(h: seq<byte> -> Digest, archive: seq<byte>, start: nat, count: nat)
      returns (ok: bool, os: seq<Object>, at: nat)
    requires start <= |archive|
    ensures ok ==> at <= |archive| && TakeAllClamped(h, archive[start..], count) == Some((os, archive[at..]))
    ensures !ok ==> TakeAllClamped(h, archive[start..], count).None?
  {
    hide TakeClamped, TakeAllClamped;
    os, at := [], start;
    ghost var whole := TakeAllClamped(h, archive[at..], count);
    PrefixedNone(whole);
    var i := 0;
    while i < count && at + OBJECT_HEADER <= |archive|
      invariant 0 <= at <= |archive| && i <= count
      invariant whole == Prefixed(os, TakeAllClamped(h, archive[at..], count - i))
    {
      PrefixedClampedStep(h, os, archive[at..], count - i);
      var o, next := ClampedObject(h, archive, at);
      if o.None? {
        return false, [], at;
      }
      os, at, i := os + [o.value], next, i + 1;
    }
    NoHeader(h, archive[at..], count - i, os);
    ok := i == count;
  }

  lemma NoHeader(h: seq<byte> -> Digest, b: seq<byte>, n: nat, read: seq<Object>)
    requires n == 0 || |b| < OBJECT_HEADER
    ensures Prefixed(read, TakeAllClamped(h, b, n)) == if n == 0 then Some((read, b)) else None
  {
    assert read + [] == read;
  }

  method StoreObjects(os: seq<Object>) returns (store: map<Digest, seq<byte>>)
    ensures store == Store(os)
  {
    store := map[];
    for i := 0 to |os|
      invariant store == Store(os[..i])
    {
      assert os[..i + 1][..i] == os[..i];
      store := store[os[i].sha256 := os[i].bytes];
    }
    assert os[..|os|] == os;
  }

  lemma UnrepeatedStep(os: seq<Object>)
    requires os != []
    ensures var init, last := os[..|os| - 1], os[|os| - 1];
            Unrepeated(os) <==> Unrepeated(init) && last.sha256 !in Store(init)
  {
    hide Store;
    var init, last := os[..|os| - 1], os[|os| - 1];
    assert forall i | 0 <= i < |init| :: os[i] == init[i];
    if Unrepeated(init) {
      StoreIs(init);
    }
  }

  lemma {:induction false} StoreSize(os: seq<Object>)
    ensures |Store(os)| <= |os|
    ensures |Store(os)| == |os| <==> Unrepeated(os)
    decreases |os|
  {
    hide Unrepeated;
    if os == [] {
      EmptyStore();
    } else {
      var init, last := os[..|os| - 1], os[|os| - 1];
      StoreSize(init);
      UnrepeatedStep(os);
      assert Store(os).Keys == Store(init).Keys + {last.sha256};
    }
  }

  method UnpackCoreArchive(t: Trust, archive: seq<byte>) returns (r: Option<(CoreSet, map<Digest, seq<byte>>)>)
    ensures r.Some? ==> CoreUnpacks(t, archive, r.value.0, r.value.1)
    ensures r.None? ==> forall core, store :: !CoreUnpacks(t, archive, core, store)
  {
    hide TakeAllClamped, Store, Unrepeated, NamedDigests, CoreArtifacts;
    if |archive| < 12 || archive[..8] != ARCHIVE_MAGIC {
      return None;
    }
    var at := 12 + FromBigEndian(archive[8..12]);
    if at + 4 > |archive| {
      return None;
    }
    var core := t.coreSet(archive[12..at]);
    if core.None? {
      return None;
    }
    var count := FromBigEndian(archive[at..at + 4]);
    var ok, os, end := ClampedObjects(t.h, archive, at + 4, count);
    if !ok {
      return None;
    }
    ClampedCount(t.h, archive[at + 4..], count);
    var store := StoreObjects(os);
    StoreSize(os);
    var named := CoreArtifacts(core.value.components);
    if end != |archive| || |store| != count || |store| != |NamedDigests(named)| {
      return None;
    }
    for i := 0 to |named|
      invariant forall k | 0 <= k < i :: Placed(store, named[k])
    {
      if !Placed(store, named[i]) {
        return None;
      }
    }
    r := Some((core.value, store));
  }

  lemma {:induction false} ClampedCount(h: seq<byte> -> Digest, b: seq<byte>, n: nat)
    ensures TakeAllClamped(h, b, n).Some? ==> |TakeAllClamped(h, b, n).value.0| == n
    decreases n
  {
    hide TakeClamped;
    if n > 0 && TakeClamped(h, b).Some? {
      ClampedCount(h, TakeClamped(h, b).value.1, n - 1);
    }
  }

  // What is accepted holds, for every artifact the set names, bytes of its length and digest, and nothing else.
  lemma CoreUnpacksIsExact(t: Trust, file: seq<byte>, core: CoreSet, store: map<Digest, seq<byte>>)
    requires CoreUnpacks(t, file, core, store)
    ensures store.Keys == NamedDigests(CoreArtifacts(core.components))
    ensures forall d | d in store :: t.h(store[d]) == d
  {
    hide TakeAllClamped, CoreArtifacts, Store, Unrepeated;
    var named := CoreArtifacts(core.components);
    var n := NamedDigests(named);
    forall d | d in n ensures d in store {
      var x :| x in named && x.sha256 == d;
      var i :| 0 <= i < |named| && named[i] == x;
      assert Placed(store, named[i]);
    }
    EqualSize(n, store.Keys);
    var at := 12 + FromBigEndian(file[8..12]);
    var count := FromBigEndian(file[at..at + 4]);
    ClampedIntact(t.h, file[at + 4..], count);
    var os := TakeAllClamped(t.h, file[at + 4..], count).value.0;
    StoreIs(os);
    forall d | d in store ensures t.h(store[d]) == d {
      var i :| 0 <= i < |os| && os[i].sha256 == d;
    }
  }

  lemma {:induction false} ClampedIntact(h: seq<byte> -> Digest, b: seq<byte>, n: nat)
    requires TakeAllClamped(h, b, n).Some?
    ensures forall i | 0 <= i < |TakeAllClamped(h, b, n).value.0| ::
              var o := TakeAllClamped(h, b, n).value.0[i]; h(o.bytes) == o.sha256
    decreases n
  {
    if n > 0 {
      ClampedIntact(h, TakeClamped(h, b).value.1, n - 1);
    }
  }

  lemma {:induction false} EqualSize(a: set<Digest>, b: set<Digest>)
    requires a <= b && |a| == |b|
    ensures a == b
  {
    if a != {} {
      var x :| x in a;
      EqualSize(a - {x}, b - {x});
    }
  }

  lemma {:induction false} ClampedTakesTheSame(h: seq<byte> -> Digest, b: seq<byte>, n: nat)
    requires TakeObjects(h, b, n).Some?
    ensures TakeAllClamped(h, b, n) == TakeObjects(h, b, n)
    decreases n
  {
    if n > 0 {
      assert TakeClamped(h, b) == TakeObject(h, b);
      ClampedTakesTheSame(h, TakeObject(h, b).value.1, n - 1);
    }
  }

  // packCoreArchive's archives unpack to the set and the files they were packed from.
  lemma CoreArchiveUnpacks(t: Trust, envelope: seq<byte>, core: CoreSet, carried: seq<Carried>)
    requires t.coreSet(envelope) == Some(core) && ArtifactsOf(carried) == CoreArtifacts(core.components)
    requires Writable(t.h, envelope, carried)
    ensures forall i | 0 <= i < |Sorted(Firsts(carried))| :: Sorted(Firsts(carried))[i].content.Some?
    ensures CoreUnpacks(t, ArchiveBytes(envelope, Written(carried)), core, Store(Written(carried)))
  {
    hide Sorted, Firsts, Store, ArchiveBytes, IsCarried, IsNamed, AllIntact, TakeObjects, TakeAllClamped, Unrepeated, CoreArtifacts;
    ReadersTakeWhatIsWritten(t.h, envelope, carried);
    WrittenObjects(t.h, envelope, carried);
    var os, file := Written(carried), ArchiveBytes(envelope, Written(carried));
    var at := 12 + FromBigEndian(file[8..12]);
    CountTaken(t.h, file);
    ClampedTakesTheSame(t.h, file[at + 4..], FromBigEndian(file[at..at + 4]));
    AscendingUnrepeated(os);
    var named := CoreArtifacts(core.components);
    forall i | 0 <= i < |named| ensures Placed(Store(os), named[i]) {
      assert ArtifactsOf(carried)[i] == named[i];
      assert carried[i] in carried;
      CarriedIsPlaced(os, carried[i].artifact);
    }
    StoredIsNamed(carried, os);
    assert Store(os).Keys == NamedDigests(named);
  }

  lemma StoredIsNamed(carried: seq<Carried>, os: seq<Object>)
    requires Names(carried, os) && Unrepeated(os)
    ensures Store(os).Keys == NamedDigests(ArtifactsOf(carried))
  {
    StoreIs(os);
    forall d | d in Store(os) ensures d in NamedDigests(ArtifactsOf(carried)) {
      var i :| 0 <= i < |os| && os[i].sha256 == d;
      assert os[i] in os;
      NamedIndex(carried, os[i]);
      var k :| 0 <= k < |ArtifactsOf(carried)| && ArtifactsOf(carried)[k].sha256 == d;
      assert ArtifactsOf(carried)[k] in ArtifactsOf(carried);
    }
    forall d | d in NamedDigests(ArtifactsOf(carried)) ensures d in Store(os) {
      var x :| x in ArtifactsOf(carried) && x.sha256 == d;
      var k :| 0 <= k < |carried| && carried[k].artifact == x;
      assert carried[k] in carried;
      CarriedIsPlaced(os, x);
    }
  }

  // Where the last of n objects starts, as this reader takes them.
  function LastOf(h: seq<byte> -> Digest, b: seq<byte>, n: nat): seq<byte>
    requires n > 0 && TakeAllClamped(h, b, n).Some?
  {
    if n == 1 then b else LastOf(h, TakeClamped(h, b).value.1, n - 1)
  }

  // A header that states more bytes than follow it.
  predicate Overlong(b: seq<byte>) {
    |b| >= OBJECT_HEADER && OBJECT_HEADER + FromBigEndian(b[64..72]) > |b|
  }

  lemma ClampedIsTaken(h: seq<byte> -> Digest, b: seq<byte>)
    requires TakeClamped(h, b).Some?
    ensures TakeObject(h, b) == if Overlong(b) then None else TakeClamped(h, b)
    ensures Overlong(b) ==> TakeClamped(h, b).value.1 == []
  {
    hide FromBigEndian;
  }

  lemma {:induction false} RefusedExactly(h: seq<byte> -> Digest, b: seq<byte>, n: nat)
    requires n > 0 && TakeAllClamped(h, b, n).Some?
    ensures TakeObjects(h, b, n).None? <==> Overlong(LastOf(h, b, n))
    ensures TakeObjects(h, b, n).Some? ==> TakeObjects(h, b, n) == TakeAllClamped(h, b, n)
    decreases n
  {
    hide TakeObject, TakeClamped, Overlong;
    ClampedIsTaken(h, b);
    if n > 1 {
      NothingClamped(h);
      RefusedExactly(h, TakeClamped(h, b).value.1, n - 1);
    } else {
      assert TakeObjects(h, b, 1) == match TakeObject(h, b) case None => None case Some((o, rest)) => Some(([o] + [], rest));
    }
  }

  lemma NothingClamped(h: seq<byte> -> Digest)
    ensures TakeClamped(h, []).None?
  {
  }

  // The last header of an archive this reader accepts.
  ghost predicate LastIsOverlong(t: Trust, file: seq<byte>, core: CoreSet, store: map<Digest, seq<byte>>)
    requires CoreUnpacks(t, file, core, store)
  {
    var at := 12 + FromBigEndian(file[8..12]);
    var count := FromBigEndian(file[at..at + 4]);
    count > 0 && Overlong(LastOf(t.h, file[at + 4..], count))
  }

  // Of the archives this reader accepts, the others refuse exactly those whose last header states more bytes than follow;
  // from the rest they take the same objects and find nothing after them.
  lemma OverlongLastObject(t: Trust, file: seq<byte>, core: CoreSet, store: map<Digest, seq<byte>>)
    requires CoreUnpacks(t, file, core, store)
    ensures TakeArchive(t.h, file).None? <==> LastIsOverlong(t, file, core, store)
    ensures TakeArchive(t.h, file).Some? ==>
              var c := TakeArchive(t.h, file).value; c.trailing == [] && Unrepeated(c.objects) && Store(c.objects) == store
  {
    hide TakeObjects, TakeAllClamped, LastOf, Overlong, Store, Unrepeated, CoreArtifacts;
    var at := 12 + FromBigEndian(file[8..12]);
    var count := FromBigEndian(file[at..at + 4]);
    if count > 0 {
      RefusedExactly(t.h, file[at + 4..], count);
    } else {
      NoObjectsTaken(t.h, file[at + 4..]);
    }
  }

  lemma NoObjectsTaken(h: seq<byte> -> Digest, b: seq<byte>)
    ensures TakeObjects(h, b, 0) == TakeAllClamped(h, b, 0) == Some(([], b))
  {
  }

  // Every content has such a header: this reader takes the object, and the others do not.
  lemma OverlongObject(h: seq<byte> -> Digest, content: seq<byte>, length: nat)
    requires |content| < length < U64_LIMIT
    ensures var b := h(content) + BigEndian(length, 8) + content;
            TakeClamped(h, b) == Some((Object(h(content), content), [])) && TakeObject(h, b).None?
  {
    hide BigEndian, FromBigEndian;
    FixedWidths();
    BigEndianRoundTrip(length, 8);
    var b := h(content) + BigEndian(length, 8) + content;
    assert b[..64] == h(content) && b[64..72] == BigEndian(length, 8) && b[72..|b|] == content && b[|b|..] == [];
  }
}
