// versionGuard (src/pool/version-guard.ts): what is built for a board's packages against its previous release, and what
// a history of releases that each passed it keeps. SHA-256 and the imported vercmp are parameters, and what the registry
// serves of a release's pool is any map at all.
module VersionGuard {
  import opened Wrappers
  import opened Bytes
  import DebianVersion

  type Digest = seq<byte>

  /* -------- Releases -------- */

  // An archive of the pool: its file name, the Version of its control file, its bytes.
  datatype Archive = Archive(file: string, version: string, bytes: seq<byte>)
  // A package row of a release's lock, and a layer of its pool's manifest.
  datatype Row = Row(version: string, sha: Digest)
  datatype Layer = Layer(digest: Digest, title: string, inputs: string)
  datatype Published = Published(rows: map<string, Row>, layers: seq<Layer>, blobs: map<Digest, seq<byte>>)

  datatype Error = NotOneArchive | LowerVersion | NoLayer | OtherTitle | OtherInputs | NoBlob | OtherBlob | OtherBytes
  datatype Verdict = Added | Bumped | Same

  type Compare = (string, string) -> int

  function FindLayer(layers: seq<Layer>, digest: Digest): (l: Option<Layer>)
    ensures l.Some? ==> l.value in layers && l.value.digest == digest
    ensures l.None? ==> forall m | m in layers :: m.digest != digest
  {
    if layers == [] then None else if layers[0].digest == digest then Some(layers[0]) else FindLayer(layers[1..], digest)
  }

  // An archive of the published version: the published one, under its name, from unchanged inputs.
  function Unchanged(h: seq<byte> -> Digest, previous: Published, inputs: Option<string>, row: Row, built: Archive): Result<Verdict, Error> {
    var layer := FindLayer(previous.layers, row.sha);
    if layer.None? then Err(NoLayer)
    else if layer.value.title != built.file then Err(OtherTitle)
    else if Some(layer.value.inputs) != inputs then Err(OtherInputs)
    else if row.sha !in previous.blobs then Err(NoBlob)
    else if h(previous.blobs[row.sha]) != row.sha then Err(OtherBlob)
    else if previous.blobs[row.sha] != built.bytes then Err(OtherBytes)
    else Ok(Same)
  }

  // The decision on one package.
  function Decide(h: seq<byte> -> Digest, vercmp: Compare, previous: Published, inputs: map<string, string>, pool: map<string, seq<Archive>>,
                  package: string): Result<Verdict, Error>
  {
    if package !in pool || |pool[package]| != 1 then Err(NotOneArchive) else
      var built := pool[package][0];
      if package !in previous.rows then Ok(Added) else
        var row := previous.rows[package];
        var c := vercmp(built.version, row.version);
        if c == 1 then Ok(Bumped)
        else if c == -1 then Err(LowerVersion)
        else Unchanged(h, previous, if package in inputs then Some(inputs[package]) else None, row, built)
  }

  // The first layer under the digest has the archive's name and the inputs it was built from now, and what is served under
  // the digest is its bytes.
  ghost predicate IsPublished(h: seq<byte> -> Digest, previous: Published, inputs: map<string, string>, package: string, digest: Digest, built: Archive) {
    && (exists i | 0 <= i < |previous.layers| ::
          && previous.layers[i].digest == digest && (forall j | 0 <= j < i :: previous.layers[j].digest != digest)
          && package in inputs && previous.layers[i] == Layer(digest, built.file, inputs[package]))
    && digest in previous.blobs && previous.blobs[digest] == built.bytes && h(built.bytes) == digest
  }

  // A package passes exactly as one archive that is new, or of a higher version, or, at the published version, the
  // published archive from unchanged inputs.
  lemma PassesExactly(h: seq<byte> -> Digest, vercmp: Compare, previous: Published, inputs: map<string, string>, pool: map<string, seq<Archive>>,
                      package: string)
    ensures Decide(h, vercmp, previous, inputs, pool, package).Ok?
      <==> (&& package in pool && |pool[package]| == 1
            && (package in previous.rows ==>
                  var built, row := pool[package][0], previous.rows[package];
                  || vercmp(built.version, row.version) == 1
                  || (vercmp(built.version, row.version) != -1 && IsPublished(h, previous, inputs, package, row.sha, built))))
  {
    if package in pool && |pool[package]| == 1 && package in previous.rows {
      var row := previous.rows[package];
      FirstLayer(previous.layers, row.sha);
      hide FindLayer;
    }
  }

  lemma {:induction false} FirstLayer(layers: seq<Layer>, digest: Digest)
    ensures FindLayer(layers, digest).Some? ==>
      exists i | 0 <= i < |layers| :: FindLayer(layers, digest) == Some(layers[i]) && forall j | 0 <= j < i :: layers[j].digest != digest
  {
    if layers != [] && layers[0].digest != digest {
      FirstLayer(layers[1..], digest);
      if i :| 0 <= i < |layers[1..]| && FindLayer(layers[1..], digest) == Some(layers[1..][i]) && forall j | 0 <= j < i :: layers[1..][j].digest != digest {
        assert layers[i + 1] == layers[1..][i];
        forall j | 0 <= j < i + 1 ensures layers[j].digest != digest {
          assert j > 0 ==> layers[j] == layers[1..][j - 1];
        }
      }
    }
  }

  ghost predicate Passes(h: seq<byte> -> Digest, vercmp: Compare, previous: Published, inputs: map<string, string>,
                         pool: map<string, seq<Archive>>, packages: seq<string>)
  {
    forall i | 0 <= i < |packages| :: Decide(h, vercmp, previous, inputs, pool, packages[i]).Ok?
  }

  datatype Report = Report(same: nat, bumped: nat, added: nat, verdicts: seq<Verdict>)

  function CountOf(verdicts: seq<Verdict>, v: Verdict): nat {
    if verdicts == [] then 0 else CountOf(verdicts[..|verdicts| - 1], v) + (if verdicts[|verdicts| - 1] == v then 1 else 0)
  }

  method Guard(h: seq<byte> -> Digest, vercmp: Compare, previous: Published, inputs: map<string, string>, pool: map<string, seq<Archive>>,
               packages: seq<string>) returns (r: Result<Report, Error>)
    ensures r.Ok? <==> Passes(h, vercmp, previous, inputs, pool, packages)
    ensures r.Ok? ==> |r.value.verdicts| == |packages|
    ensures r.Ok? ==> forall i | 0 <= i < |packages| :: Ok(r.value.verdicts[i]) == Decide(h, vercmp, previous, inputs, pool, packages[i])
    ensures r.Ok? ==> r.value.same == CountOf(r.value.verdicts, Same) && r.value.bumped == CountOf(r.value.verdicts, Bumped)
    ensures r.Ok? ==> r.value.added == CountOf(r.value.verdicts, Added)
    ensures r.Ok? ==> r.value.same + r.value.bumped + r.value.added == |packages|
  {
    var same, bumped, added := 0, 0, 0;
    var out: seq<Verdict> := [];
    for i := 0 to |packages|
      invariant |out| == i
      invariant forall j | 0 <= j < i :: Ok(out[j]) == Decide(h, vercmp, previous, inputs, pool, packages[j])
      invariant same == CountOf(out, Same) && bumped == CountOf(out, Bumped) && added == CountOf(out, Added)
      invariant same + bumped + added == i
    {
      var package := packages[i];
      var debs := if package in pool then pool[package] else [];
      if |debs| != 1 {
        assert Decide(h, vercmp, previous, inputs, pool, packages[i]).Err?;
        return Err(NotOneArchive);
      }
      if package !in previous.rows {
        added, out := added + 1, out + [Added];
        continue;
      }
      var row := previous.rows[package];
      var c := vercmp(debs[0].version, row.version);
      if c == 1 {
        bumped, out := bumped + 1, out + [Bumped];
        continue;
      }
      if c == -1 {
        assert Decide(h, vercmp, previous, inputs, pool, packages[i]).Err?;
        return Err(LowerVersion);
      }
      var kept := Unchanged(h, previous, if package in inputs then Some(inputs[package]) else None, row, debs[0]);
      if kept.Err? {
        assert Decide(h, vercmp, previous, inputs, pool, packages[i]).Err?;
        return Err(kept.error);
      }
      same, out := same + 1, out + [Same];
    }
    r := Ok(Report(same, bumped, added, out));
  }

  /* -------- Histories -------- */

  // A release: what was built for it, of which packages, from which inputs, and what it then published.
  datatype Release = Release(packages: seq<string>, inputs: map<string, string>, pool: map<string, seq<Archive>>, published: Published)

  predicate Builds(r: Release, package: string) {
    package in r.packages && package in r.pool && |r.pool[package]| == 1
  }

  function Built(r: Release, package: string): Archive
    requires Builds(r, package)
  {
    r.pool[package][0]
  }

  // A release's lock states the version and the digest of each package it built; the rest of what it published is open.
  ghost predicate Publishes(h: seq<byte> -> Digest, r: Release) {
    forall package | Builds(r, package) ::
      package in r.published.rows && r.published.rows[package] == Row(Built(r, package).version, h(Built(r, package).bytes))
  }

  ghost predicate History(h: seq<byte> -> Digest, vercmp: Compare, releases: seq<Release>) {
    && (forall k | 0 <= k < |releases| :: Publishes(h, releases[k]))
    && forall k | 1 <= k < |releases| :: PassesAfter(h, vercmp, releases[k - 1], releases[k])
  }

  ghost predicate PassesAfter(h: seq<byte> -> Digest, vercmp: Compare, previous: Release, r: Release) {
    Passes(h, vercmp, previous.published, r.inputs, r.pool, r.packages)
  }

  // What is assumed of the imported comparison.
  ghost predicate TotalPreorder(vercmp: Compare) {
    && (forall a :: vercmp(a, a) == 0)
    && (forall a, b :: vercmp(a, b) in {-1, 0, 1} && vercmp(a, b) == -vercmp(b, a))
    && forall a, b, c | vercmp(a, b) <= 0 && vercmp(b, c) <= 0 :: vercmp(a, c) <= 0 && (vercmp(a, c) == 0 ==> vercmp(a, b) == 0 && vercmp(b, c) == 0)
  }

  // dpkg's order on versions, epoch included, with texts that are no versions below all that are.
  function DpkgOrder(a: string, b: string): int {
    if DebianVersion.Valid(a) && DebianVersion.Valid(b) then DebianVersion.VersionOrder(a, b).value
    else if DebianVersion.Valid(a) then 1 else if DebianVersion.Valid(b) then -1 else 0
  }

  // It is such a comparison.
  lemma DpkgOrderQualifies()
    ensures TotalPreorder(DpkgOrder)
    ensures forall a, b | DebianVersion.Valid(a) && DebianVersion.Valid(b) :: DebianVersion.VersionOrder(a, b) == Some(DpkgOrder(a, b))
  {
    hide DebianVersion.Valid, DebianVersion.VersionOrder;
    forall a, b, c
      ensures DpkgOrder(a, a) == 0 && DpkgOrder(a, b) in {-1, 0, 1} && DpkgOrder(a, b) == -DpkgOrder(b, a)
      ensures DpkgOrder(a, b) <= 0 && DpkgOrder(b, c) <= 0 ==>
                DpkgOrder(a, c) <= 0 && (DpkgOrder(a, c) == 0 ==> DpkgOrder(a, b) == 0 && DpkgOrder(b, c) == 0)
    {
      DpkgOrderCoheres(a, b, c);
    }
    forall a, b | DebianVersion.Valid(a) && DebianVersion.Valid(b) ensures DebianVersion.VersionOrder(a, b) == Some(DpkgOrder(a, b)) {
      BothOrdered(a, b);
    }
  }

  lemma BothOrdered(a: string, b: string)
    requires DebianVersion.Valid(a) && DebianVersion.Valid(b)
    ensures DebianVersion.VersionOrder(a, b).Some?
  {
    hide DebianVersion.Split, DebianVersion.PartsOrder;
  }

  lemma DpkgOrderCoheres(a: string, b: string, c: string)
    ensures DpkgOrder(a, a) == 0 && DpkgOrder(a, b) in {-1, 0, 1} && DpkgOrder(a, b) == -DpkgOrder(b, a)
    ensures DpkgOrder(a, b) <= 0 && DpkgOrder(b, c) <= 0 ==>
              DpkgOrder(a, c) <= 0 && (DpkgOrder(a, c) == 0 ==> DpkgOrder(a, b) == 0 && DpkgOrder(b, c) == 0)
  {
    if DebianVersion.Valid(a) && DebianVersion.Valid(b) && DebianVersion.Valid(c) {
      DebianVersion.VersionOrderIsTotalPreorder(a, b, c);
    } else if DebianVersion.Valid(a) && DebianVersion.Valid(b) {
      DebianVersion.VersionOrderIsTotalPreorder(a, b, b);
    } else if DebianVersion.Valid(a) {
      DebianVersion.VersionOrderIsTotalPreorder(a, a, a);
    }
    if DebianVersion.Valid(a) && DebianVersion.Valid(b) {
      BothOrdered(a, b);
    }
    hide DebianVersion.Valid, DebianVersion.VersionOrder;
  }

  // A package two successive releases build has not gone back, and at one version its digest stands.
  lemma OneStep(h: seq<byte> -> Digest, vercmp: Compare, previous: Release, r: Release, package: string)
    requires TotalPreorder(vercmp) && Publishes(h, previous) && PassesAfter(h, vercmp, previous, r)
    requires Builds(previous, package) && Builds(r, package)
    ensures vercmp(Built(previous, package).version, Built(r, package).version) <= 0
    ensures vercmp(Built(previous, package).version, Built(r, package).version) == 0 ==>
              h(Built(previous, package).bytes) == h(Built(r, package).bytes)
  {
    var i :| 0 <= i < |r.packages| && r.packages[i] == package;
    assert Decide(h, vercmp, previous.published, r.inputs, r.pool, r.packages[i]).Ok?;
    var a, b := Built(previous, package).version, Built(r, package).version;
    assert vercmp(b, a) in {-1, 0, 1} && vercmp(a, b) == -vercmp(b, a);
  }

  // While a package stays published its version never decreases, and all releases between two of one version carry it
  // under one digest.
  lemma {:induction false} VersionsNeverDecrease(h: seq<byte> -> Digest, vercmp: Compare, releases: seq<Release>, package: string, i: nat, j: nat)
    requires TotalPreorder(vercmp) && History(h, vercmp, releases) && i <= j < |releases|
    requires forall k | i <= k <= j :: Builds(releases[k], package)
    ensures vercmp(Built(releases[i], package).version, Built(releases[j], package).version) <= 0
    ensures vercmp(Built(releases[i], package).version, Built(releases[j], package).version) == 0 ==>
              h(Built(releases[i], package).bytes) == h(Built(releases[j], package).bytes)
    decreases j - i
  {
    hide Builds, Built, Publishes, PassesAfter;
    if i < j {
      VersionsNeverDecrease(h, vercmp, releases, package, i, j - 1);
      OneStep(h, vercmp, releases[j - 1], releases[j], package);
      var a, b, c := Built(releases[i], package).version, Built(releases[j - 1], package).version, Built(releases[j], package).version;
      hide History;
      assert vercmp(a, b) <= 0 && vercmp(b, c) <= 0;
    }
  }

  // The archives of a package over some releases.
  function Archives(releases: seq<Release>, package: string): set<seq<byte>> {
    set k | 0 <= k < |releases| && Builds(releases[k], package) :: Built(releases[k], package).bytes
  }

  // So, unless two of the package's own archives share a digest, one version is one archive, byte for byte.
  lemma OneVersionIsOneArchive(h: seq<byte> -> Digest, vercmp: Compare, releases: seq<Release>, package: string, i: nat, j: nat)
    requires TotalPreorder(vercmp) && History(h, vercmp, releases) && i <= j < |releases|
    requires forall k | i <= k <= j :: Builds(releases[k], package)
    requires forall a, b | a in Archives(releases, package) && b in Archives(releases, package) && h(a) == h(b) :: a == b
    requires vercmp(Built(releases[i], package).version, Built(releases[j], package).version) == 0
    ensures Built(releases[i], package).bytes == Built(releases[j], package).bytes
  {
    hide Built, History;
    VersionsNeverDecrease(h, vercmp, releases, package, i, j);
  }

  // Continuity is needed: a package that a release leaves out may return at a version below its last.
  lemma ReturnMayGoBack(h: seq<byte> -> Digest, vercmp: Compare, low: string, high: string)
    requires vercmp(low, high) < 0
    ensures exists releases: seq<Release> ::
      && |releases| == 3 && History(h, vercmp, releases) && Builds(releases[0], "p") && !Builds(releases[1], "p") && Builds(releases[2], "p")
      && Built(releases[0], "p").version == high && Built(releases[2], "p").version == low
  {
    var a, b, c := Only(h, high), Release([], map[], map[], Published(map[], [], map[])), Only(h, low);
    OnlyPublishes(h, high);
    OnlyPublishes(h, low);
    assert Publishes(h, b) && PassesAfter(h, vercmp, a, b) && PassesAfter(h, vercmp, b, c);
    hide Publishes, PassesAfter;
    assert History(h, vercmp, [a, b, c]);
  }

  // A release of one package, of no bytes.
  function Only(h: seq<byte> -> Digest, version: string): Release {
    Release(["p"], map[], map["p" := [Archive("p.deb", version, [])]], Published(map["p" := Row(version, h([]))], [], map[]))
  }

  lemma OnlyPublishes(h: seq<byte> -> Digest, version: string)
    ensures Publishes(h, Only(h, version)) && Builds(Only(h, version), "p") && Built(Only(h, version), "p").version == version
  {
  }
}
