// The MICAUPD1 archive: its writer (src/image/component-archive.ts) and the reader of src/release/chunks.ts. SHA-256
// is a parameter.
module Archive {
  import opened Wrappers
  import opened Bytes
  import opened Chunks
  import opened Transfer

  const ARCHIVE_MAGIC: seq<byte> := [0x4d, 0x49, 0x43, 0x41, 0x55, 0x50, 0x44, 0x31] // MICAUPD1
  const OBJECT_HEADER := 72

  datatype Artifact = Artifact(sha256: Digest, bytes: nat)

  // An artifact and the content of the file it is read from; None where that is no regular file.
  datatype Carried = Carried(artifact: Artifact, content: Option<seq<byte>>)

  datatype Refusal =
    | NotAnArchive | Truncated | InvalidHeader | DigestMismatch | TrailingBytes
    | ConflictingLengths | LengthMismatch | FieldOverflow

  /* -------- The format -------- */

  function ObjectBytes(o: Object): (b: seq<byte>)
    ensures |b| == OBJECT_HEADER + |o.bytes|
  {
    o.sha256 + BigEndian(|o.bytes|, 8) + o.bytes
  }

  function ObjectsBytes(os: seq<Object>): seq<byte> {
    if os == [] then [] else ObjectBytes(os[0]) + ObjectsBytes(os[1..])
  }

  function ArchiveBytes(envelope: seq<byte>, os: seq<Object>): seq<byte> {
    ARCHIVE_MAGIC + BigEndian(|envelope|, 4) + envelope + BigEndian(|os|, 4) + ObjectsBytes(os)
  }

  predicate Intact(h: seq<byte> -> Digest, o: Object) {
    |o.bytes| < U64_LIMIT && h(o.bytes) == o.sha256
  }

  ghost predicate AllIntact(h: seq<byte> -> Digest, os: seq<Object>) {
    forall i | 0 <= i < |os| :: Intact(h, os[i])
  }

  /* -------- Taking an archive apart -------- */

  function TakeObject(h: seq<byte> -> Digest, b: seq<byte>): (r: Option<(Object, seq<byte>)>)
    ensures r.Some? ==> |r.value.1| < |b|
  {
    if |b| < OBJECT_HEADER || !IsHex(b[..64]) then None else
      var end := OBJECT_HEADER + FromBigEndian(b[64..72]);
      if end > |b| || h(b[OBJECT_HEADER..end]) != b[..64] then None
      else Some((Object(b[..64], b[OBJECT_HEADER..end]), b[end..]))
  }

  function TakeObjects(h: seq<byte> -> Digest, b: seq<byte>, n: nat): Option<(seq<Object>, seq<byte>)> {
    if n == 0 then Some(([], b)) else
      match TakeObject(h, b)
      case None => None
      case Some((o, rest)) =>
        match TakeObjects(h, rest, n - 1)
        case None => None
        case Some((os, tail)) => Some(([o] + os, tail))
  }

  datatype Contents = Contents(envelope: seq<byte>, objects: seq<Object>, trailing: seq<byte>)

  function TakeArchive(h: seq<byte> -> Digest, b: seq<byte>): Option<Contents> {
    if |b| < 12 || b[..8] != ARCHIVE_MAGIC then None else
      var at := 12 + FromBigEndian(b[8..12]);
      if at + 4 > |b| then None else
        match TakeObjects(h, b[at + 4..], FromBigEndian(b[at..at + 4]))
        case None => None
        case Some((os, tail)) => Some(Contents(b[12..at], os, tail))
  }

  lemma TakeObjectBytes(h: seq<byte> -> Digest, o: Object, rest: seq<byte>)
    requires Intact(h, o)
    ensures TakeObject(h, ObjectBytes(o) + rest) == Some((o, rest))
  {
    hide BigEndian, FromBigEndian;
    FixedWidths();
    BigEndianRoundTrip(|o.bytes|, 8);
    var b := ObjectBytes(o) + rest;
    assert b[..64] == o.sha256 && b[64..72] == BigEndian(|o.bytes|, 8);
    assert b[OBJECT_HEADER..OBJECT_HEADER + |o.bytes|] == o.bytes && b[OBJECT_HEADER + |o.bytes|..] == rest;
  }

  lemma {:induction false} BigEndianOf(b: seq<byte>)
    ensures BigEndian(FromBigEndian(b), |b|) == b
    decreases |b|
  {
    if b != [] {
      BigEndianOf(b[..|b| - 1]);
      var n := FromBigEndian(b);
      assert n / 256 == FromBigEndian(b[..|b| - 1]) && n % 256 == b[|b| - 1];
      assert b == b[..|b| - 1] + [b[|b| - 1]];
    }
  }

  lemma ObjectTaken(h: seq<byte> -> Digest, b: seq<byte>)
    requires TakeObject(h, b).Some?
    ensures var (o, rest) := TakeObject(h, b).value; Intact(h, o) && b == ObjectBytes(o) + rest
  {
    hide BigEndian, FromBigEndian;
    FixedWidths();
    BigEndianOf(b[64..72]);
    var end := OBJECT_HEADER + FromBigEndian(b[64..72]);
    assert b == b[..64] + b[64..72] + b[OBJECT_HEADER..end] + b[end..];
  }

  lemma {:induction false} TakeObjectsBytes(h: seq<byte> -> Digest, os: seq<Object>, rest: seq<byte>)
    requires AllIntact(h, os)
    ensures TakeObjects(h, ObjectsBytes(os) + rest, |os|) == Some((os, rest))
    decreases |os|
  {
    hide TakeObject, ObjectBytes;
    if os == [] {
      assert ObjectsBytes(os) + rest == rest;
    } else {
      TakeObjectBytes(h, os[0], ObjectsBytes(os[1..]) + rest);
      assert ObjectsBytes(os) + rest == ObjectBytes(os[0]) + (ObjectsBytes(os[1..]) + rest);
      TakeObjectsBytes(h, os[1..], rest);
      assert [os[0]] + os[1..] == os;
    }
  }

  lemma {:induction false} ObjectsTaken(h: seq<byte> -> Digest, b: seq<byte>, n: nat)
    requires TakeObjects(h, b, n).Some?
    ensures var (os, rest) := TakeObjects(h, b, n).value;
            |os| == n && AllIntact(h, os) && b == ObjectsBytes(os) + rest
    decreases n
  {
    hide TakeObject, ObjectBytes, Intact;
    if n > 0 {
      ObjectTaken(h, b);
      var (o, rest) := TakeObject(h, b).value;
      ObjectsTaken(h, rest, n - 1);
      var (os, tail) := TakeObjects(h, rest, n - 1).value;
      assert ([o] + os)[1..] == os;
      assert ObjectBytes(o) + (ObjectsBytes(os) + tail) == (ObjectBytes(o) + ObjectsBytes(os)) + tail;
    }
  }

  // Taking apart inverts putting together, whatever follows the archive.
  lemma TakeArchiveIsExact(h: seq<byte> -> Digest, b: seq<byte>, c: Contents)
    ensures TakeArchive(h, b) == Some(c) <==>
            && |c.envelope| < U32_LIMIT && |c.objects| < U32_LIMIT && AllIntact(h, c.objects)
            && b == ArchiveBytes(c.envelope, c.objects) + c.trailing
  {
    if |c.envelope| < U32_LIMIT && |c.objects| < U32_LIMIT && AllIntact(h, c.objects)
       && b == ArchiveBytes(c.envelope, c.objects) + c.trailing {
      ArchiveTaken(h, b, c);
    }
    if TakeArchive(h, b) == Some(c) {
      TakenArchive(h, b, c);
    }
  }

  lemma ArchiveTaken(h: seq<byte> -> Digest, b: seq<byte>, c: Contents)
    requires |c.envelope| < U32_LIMIT && |c.objects| < U32_LIMIT && AllIntact(h, c.objects)
    requires b == ArchiveBytes(c.envelope, c.objects) + c.trailing
    ensures TakeArchive(h, b) == Some(c)
  {
    hide BigEndian, FromBigEndian, ObjectsBytes, TakeObjects, AllIntact;
    FixedWidths();
    BigEndianRoundTrip(|c.envelope|, 4);
    BigEndianRoundTrip(|c.objects|, 4);
    TakeObjectsBytes(h, c.objects, c.trailing);
    var at := 12 + |c.envelope|;
    assert b[..8] == ARCHIVE_MAGIC && b[8..12] == BigEndian(|c.envelope|, 4) && b[12..at] == c.envelope;
    assert b[at..at + 4] == BigEndian(|c.objects|, 4) && b[at + 4..] == ObjectsBytes(c.objects) + c.trailing;
  }

  lemma TakenArchive(h: seq<byte> -> Digest, b: seq<byte>, c: Contents)
    requires TakeArchive(h, b) == Some(c)
    ensures |c.envelope| < U32_LIMIT && |c.objects| < U32_LIMIT && AllIntact(h, c.objects)
    ensures b == ArchiveBytes(c.envelope, c.objects) + c.trailing
  {
    hide BigEndian, FromBigEndian, ObjectsBytes, TakeObjects, AllIntact;
    FixedWidths();
    var at := 12 + FromBigEndian(b[8..12]);
    BigEndianOf(b[8..12]);
    BigEndianOf(b[at..at + 4]);
    ObjectsTaken(h, b[at + 4..], FromBigEndian(b[at..at + 4]));
    assert b == b[..8] + b[8..12] + b[12..at] + b[at..at + 4] + b[at + 4..];
  }

  /* -------- The reader of src/release/chunks.ts -------- */

  // One object at an offset: its header, its bytes and its digest.
  method ReadObject(h: seq<byte> -> Digest, buffer: seq<byte>, offset: nat) returns (r: Result<Object, Refusal>, at: nat)
    requires offset <= |buffer|
    ensures r.Ok? ==> at <= |buffer| && TakeObject(h, buffer[offset..]) == Some((r.value, buffer[at..]))
    ensures r.Err? ==> TakeObject(h, buffer[offset..]).None?
  {
    at := offset;
    ghost var b := buffer[offset..];
    if at + OBJECT_HEADER > |buffer| {
      return Err(Truncated), at;
    }
    var sha := buffer[at..at + 64];
    var length := FromBigEndian(buffer[at + 64..at + OBJECT_HEADER]);
    assert b[..64] == sha && b[64..72] == buffer[at + 64..at + OBJECT_HEADER];
    at := at + OBJECT_HEADER;
    if !IsHex(sha) || at + length > |buffer| {
      return Err(InvalidHeader), at;
    }
    var bytes := buffer[at..at + length];
    assert b[OBJECT_HEADER..OBJECT_HEADER + length] == bytes;
    if h(bytes) != sha {
      return Err(DigestMismatch), at;
    }
    at := at + length;
    assert b[OBJECT_HEADER + length..] == buffer[at..];
    r := Ok(Object(sha, bytes));
  }

  // The objects of an archive in the order it carries them: exactly the archives without trailing bytes are read.
  method ArchiveObjects(h: seq<byte> -> Digest, archive: seq<byte>) returns (r: Result<seq<Object>, Refusal>)
    ensures r.Ok? <==> TakeArchive(h, archive).Some? && TakeArchive(h, archive).value.trailing == []
    ensures r.Ok? ==> r.value == TakeArchive(h, archive).value.objects
  {
    if |archive| < 12 {
      return Err(Truncated);
    }
    if archive[..8] != ARCHIVE_MAGIC {
      return Err(NotAnArchive);
    }
    var at := 12 + FromBigEndian(archive[8..12]);
    if at + 4 > |archive| {
      return Err(Truncated);
    }
    var count := FromBigEndian(archive[at..at + 4]);
    at := at + 4;
    hide TakeObject, TakeObjects;
    var objects;
    objects, at := ReadObjects(h, archive, at, count);
    if objects.Err? {
      return Err(objects.error);
    }
    if at != |archive| {
      return Err(TrailingBytes);
    }
    r := Ok(objects.value);
  }

  // The loop over the objects, from an offset on.
  method ReadObjects(h: seq<byte> -> Digest, archive: seq<byte>, start: nat, count: nat)
      returns (r: Result<seq<Object>, Refusal>, at: nat)
    requires start <= |archive|
    ensures r.Ok? ==> at <= |archive| && TakeObjects(h, archive[start..], count) == Some((r.value, archive[at..]))
    ensures r.Err? ==> TakeObjects(h, archive[start..], count).None?
  {
    hide TakeObject, TakeObjects;
    at := start;
    var objects: seq<Object> := [];
    ghost var whole := TakeObjects(h, archive[at..], count);
    PrefixedNone(whole);
    for i := 0 to count
      invariant 0 <= at <= |archive|
      invariant whole == Prefixed(objects, TakeObjects(h, archive[at..], count - i))
    {
      PrefixedStep(h, objects, archive[at..], count - i);
      var o, next := ReadObject(h, archive, at);
      if o.Err? {
        return Err(o.error), at;
      }
      objects := objects + [o.value];
      at := next;
    }
    TakeNothing(h, archive[at..]);
    r := Ok(objects);
  }

  // Objects already read, before those still to be taken.
  function Prefixed(read: seq<Object>, r: Option<(seq<Object>, seq<byte>)>): Option<(seq<Object>, seq<byte>)> {
    match r
    case None => None
    case Some((os, tail)) => Some((read + os, tail))
  }

  lemma PrefixedNone(r: Option<(seq<Object>, seq<byte>)>)
    ensures Prefixed([], r) == r
  {
    if r.Some? {
      assert [] + r.value.0 == r.value.0;
    }
  }

  lemma TakeNothing(h: seq<byte> -> Digest, b: seq<byte>)
    ensures TakeObjects(h, b, 0) == Some(([], b))
    ensures forall read :: Prefixed(read, TakeObjects(h, b, 0)) == Some((read, b))
  {
    assert forall read: seq<Object> :: read + [] == read;
  }

  lemma PrefixedStep(h: seq<byte> -> Digest, read: seq<Object>, b: seq<byte>, n: nat)
    requires n > 0
    ensures TakeObject(h, b).None? ==> Prefixed(read, TakeObjects(h, b, n)).None?
    ensures TakeObject(h, b).Some? ==>
              var (o, rest) := TakeObject(h, b).value;
              Prefixed(read, TakeObjects(h, b, n)) == Prefixed(read + [o], TakeObjects(h, rest, n - 1))
  {
    hide TakeObject;
    if TakeObject(h, b).Some? {
      var (o, rest) := TakeObject(h, b).value;
      var more := TakeObjects(h, rest, n - 1);
      if more.Some? {
        assert read + ([o] + more.value.0) == (read + [o]) + more.value.0;
      }
    }
  }

  /* -------- The order of digests -------- */

  // Byte order of two digests, as JavaScript's > and localeCompare order lowercase hex.
  predicate Less(a: seq<byte>, b: seq<byte>)
    requires |a| == |b|
  {
    a != [] && (a[0] < b[0] || (a[0] == b[0] && Less(a[1..], b[1..])))
  }

  lemma {:induction false} LessIsStrict(a: seq<byte>, b: seq<byte>, c: seq<byte>)
    requires |a| == |b| == |c|
    ensures !Less(a, a)
    ensures a != b ==> Less(a, b) || Less(b, a)
    ensures !(Less(a, b) && Less(b, a))
    ensures Less(a, b) && Less(b, c) ==> Less(a, c)
  {
    if a != [] {
      LessIsStrict(a[1..], b[1..], c[1..]);
      assert a == [a[0]] + a[1..] && b == [b[0]] + b[1..];
    }
  }

  // The order by bytes: alike up to some byte, and that one smaller.
  ghost predicate Before(a: seq<byte>, b: seq<byte>)
    requires |a| == |b|
  {
    exists k | 0 <= k < |a| :: a[..k] == b[..k] && a[k] < b[k]
  }

  lemma {:induction false} LessIsBefore(a: seq<byte>, b: seq<byte>)
    requires |a| == |b|
    ensures Less(a, b) <==> Before(a, b)
  {
    if a != [] {
      LessIsBefore(a[1..], b[1..]);
      if a[0] == b[0] {
        BeforeOnward(a, b);
      } else if a[0] < b[0] {
        assert a[..0] == b[..0];
      } else {
        forall k | 0 < k < |a| ensures a[..k] != b[..k] {
          assert a[..k][0] != b[..k][0];
        }
      }
    }
  }

  lemma BeforeOnward(a: seq<byte>, b: seq<byte>)
    requires |a| == |b| && a != [] && a[0] == b[0]
    ensures Before(a, b) <==> Before(a[1..], b[1..])
  {
    if k :| 0 <= k < |a| && a[..k] == b[..k] && a[k] < b[k] {
      assert a[1..][..k - 1] == a[..k][1..] && b[1..][..k - 1] == b[..k][1..];
      assert a[1..][k - 1] < b[1..][k - 1];
    }
    if k :| 0 <= k < |a[1..]| && a[1..][..k] == b[1..][..k] && a[1..][k] < b[1..][k] {
      assert a[..k + 1] == [a[0]] + a[1..][..k] && b[..k + 1] == [b[0]] + b[1..][..k];
    }
  }

  // In strictly ascending order of digests, byte by byte.
  ghost predicate InByteOrder(os: seq<Object>) {
    forall i, j | 0 <= i < j < |os| :: Before(os[i].sha256, os[j].sha256)
  }

  lemma AscendingIsByteOrder(os: seq<Object>)
    ensures Ascending(os) <==> InByteOrder(os)
  {
    hide Less, Before;
    forall i, j | 0 <= i < j < |os| ensures Less(os[i].sha256, os[j].sha256) <==> Before(os[i].sha256, os[j].sha256) {
      LessIsBefore(os[i].sha256, os[j].sha256);
    }
  }

  ghost predicate Ascending(os: seq<Object>) {
    forall i, j | 0 <= i < j < |os| :: Less(os[i].sha256, os[j].sha256)
  }

  /* -------- The writer -------- */

  function Key(c: Carried): Digest {
    c.artifact.sha256
  }

  ghost predicate KeysAscend(cs: seq<Carried>) {
    forall i, j | 0 <= i < j < |cs| :: Less(Key(cs[i]), Key(cs[j]))
  }

  ghost predicate KeysDistinct(cs: seq<Carried>) {
    forall i, j | 0 <= i < j < |cs| :: Key(cs[i]) != Key(cs[j])
  }

  function Insert(cs: seq<Carried>, c: Carried): seq<Carried> {
    if cs == [] then [c]
    else if Less(Key(c), Key(cs[0])) then [c] + cs
    else [cs[0]] + Insert(cs[1..], c)
  }

  // The distinct artifacts in digest order.
  function Sorted(cs: seq<Carried>): seq<Carried> {
    if cs == [] then [] else Insert(Sorted(cs[1..]), cs[0])
  }

  lemma {:induction false} InsertAscends(cs: seq<Carried>, c: Carried)
    requires KeysAscend(cs) && forall i | 0 <= i < |cs| :: Key(cs[i]) != Key(c)
    ensures KeysAscend(Insert(cs, c))
    ensures forall x :: x in Insert(cs, c) <==> x == c || x in cs
    ensures |Insert(cs, c)| == |cs| + 1
  {
    if cs == [] {
    } else if Less(Key(c), Key(cs[0])) {
      var r := [c] + cs;
      forall i, j | 0 <= i < j < |r| ensures Less(Key(r[i]), Key(r[j])) {
        LessIsStrict(Key(c), Key(cs[0]), Key(r[j]));
      }
    } else {
      InsertAscends(cs[1..], c);
      LessIsStrict(Key(c), Key(cs[0]), Key(c));
      var t := Insert(cs[1..], c);
      forall x | x in t ensures Less(Key(cs[0]), Key(x)) {
      }
      assert cs == [cs[0]] + cs[1..];
    }
  }

  lemma {:induction false} SortedAscends(cs: seq<Carried>)
    requires KeysDistinct(cs)
    ensures KeysAscend(Sorted(cs)) && |Sorted(cs)| == |cs|
    ensures forall x :: x in Sorted(cs) <==> x in cs
  {
    if cs != [] {
      SortedAscends(cs[1..]);
      assert cs == [cs[0]] + cs[1..];
      forall i | 0 <= i < |Sorted(cs[1..])| ensures Key(Sorted(cs[1..])[i]) != Key(cs[0]) {
        assert Sorted(cs[1..])[i] in cs[1..];
      }
      InsertAscends(Sorted(cs[1..]), cs[0]);
    }
  }

  // The entry under a digest in a list of carried artifacts, as Map.get finds it.
  function Get(cs: seq<Carried>, d: Digest): (r: Option<Carried>)
    ensures r.Some? ==> r.value in cs && Key(r.value) == d
    ensures r.None? ==> forall c | c in cs :: Key(c) != d
  {
    if cs == [] then None
    else if Key(cs[0]) == d then Some(cs[0])
    else Get(cs[1..], d)
  }

  // The first entry of each digest, in order.
  function Firsts(cs: seq<Carried>): seq<Carried> {
    if cs == [] then [] else
      var init, last := Firsts(cs[..|cs| - 1]), cs[|cs| - 1];
      if Get(init, Key(last)).Some? then init else init + [last]
  }

  // Whether every artifact of the list states the length under which its digest was first named.
  ghost predicate Consistent(cs: seq<Carried>) {
    forall c, d | c in cs && d in cs && Key(c) == Key(d) :: c.artifact.bytes == d.artifact.bytes
  }

  lemma {:induction false} FirstsCover(cs: seq<Carried>)
    ensures KeysDistinct(Firsts(cs))
    ensures forall c | c in Firsts(cs) :: c in cs
    ensures forall c | c in cs :: Get(Firsts(cs), Key(c)).Some?
    decreases |cs|
  {
    if cs != [] {
      var init, last := cs[..|cs| - 1], cs[|cs| - 1];
      FirstsCover(init);
      assert cs == init + [last];
      var f := Firsts(init);
      forall c | c in cs ensures Get(Firsts(cs), Key(c)).Some? {
        if c in init {
          var x := Get(f, Key(c)).value;
          assert x in Firsts(cs);
        } else {
          assert Get(f, Key(c)).Some? || last in Firsts(cs);
        }
      }
    }
  }

  // The file of an artifact holds its bytes: the length stated, under the digest stated.
  predicate FileMatches(h: seq<byte> -> Digest, c: Carried) {
    && c.content.Some? && |c.content.value| == c.artifact.bytes < U64_LIMIT
    && h(c.content.value) == c.artifact.sha256
  }

  ghost predicate AllMatch(h: seq<byte> -> Digest, cs: seq<Carried>) {
    forall i | 0 <= i < |cs| :: FileMatches(h, cs[i])
  }

  ghost predicate Writable(h: seq<byte> -> Digest, envelope: seq<byte>, carried: seq<Carried>) {
    && |envelope| < U32_LIMIT && |Firsts(carried)| < U32_LIMIT
    && Consistent(carried)
    && AllMatch(h, Firsts(carried))
  }

  function Objects(cs: seq<Carried>): (os: seq<Object>)
    requires forall i | 0 <= i < |cs| :: cs[i].content.Some?
    ensures |os| == |cs| && forall i | 0 <= i < |cs| :: os[i] == Object(Key(cs[i]), cs[i].content.value)
  {
    seq(|cs|, i requires 0 <= i < |cs| => Object(Key(cs[i]), cs[i].content.value))
  }

  // The objects map: the first artifact under each digest, refused where a later one states another length.
  method Collect(carried: seq<Carried>) returns (r: Result<seq<Carried>, Refusal>)
    ensures r.Ok? <==> Consistent(carried)
    ensures r.Ok? ==> r.value == Firsts(carried)
  {
    var objects: seq<Carried> := [];
    for i := 0 to |carried|
      invariant objects == Firsts(carried[..i]) && Consistent(carried[..i])
    {
      var c := carried[i];
      assert carried[..i + 1][..i] == carried[..i];
      FirstsCover(carried[..i]);
      var existing := Get(objects, Key(c));
      if existing.Some? && existing.value.artifact.bytes != c.artifact.bytes {
        assert existing.value in carried && c in carried;
        return Err(ConflictingLengths);
      }
      if existing.None? {
        objects := objects + [c];
      }
      assert carried[..i + 1] == carried[..i] + [c];
      forall x, y | x in carried[..i + 1] && y in carried[..i + 1] && Key(x) == Key(y)
        ensures x.artifact.bytes == y.artifact.bytes
      {
        if x == c && y in carried[..i] {
          assert Get(Firsts(carried[..i]), Key(y)).Some?;
        }
        if y == c && x in carried[..i] {
          assert Get(Firsts(carried[..i]), Key(x)).Some?;
        }
      }
    }
    assert carried[..|carried|] == carried;
    r := Ok(objects);
  }

  // The objects of the archive of these artifacts.
  function Written(carried: seq<Carried>): seq<Object>
    requires forall i | 0 <= i < |Sorted(Firsts(carried))| :: Sorted(Firsts(carried))[i].content.Some?
  {
    Objects(Sorted(Firsts(carried)))
  }

  lemma SortedMatch(h: seq<byte> -> Digest, carried: seq<Carried>)
    ensures var s := Sorted(Firsts(carried));
            && KeysAscend(s) && |s| == |Firsts(carried)|
            && (AllMatch(h, s) <==> AllMatch(h, Firsts(carried)))
            && (forall c :: c in s <==> c in Firsts(carried))
  {
    hide FileMatches, Firsts, Sorted, KeysAscend;
    FirstsCover(carried);
    SortedAscends(Firsts(carried));
    var f, s := Firsts(carried), Sorted(Firsts(carried));
    if AllMatch(h, f) {
      forall i | 0 <= i < |s| ensures FileMatches(h, s[i]) {
        assert s[i] in f;
      }
    }
    if AllMatch(h, s) {
      forall i | 0 <= i < |f| ensures FileMatches(h, f[i]) {
        assert f[i] in s;
      }
    }
  }

  lemma {:induction false} ObjectsBytesSnoc(os: seq<Object>, o: Object)
    ensures ObjectsBytes(os + [o]) == ObjectsBytes(os) + ObjectBytes(o)
  {
    hide ObjectBytes;
    if os == [] {
      assert [] + [o] == [o];
      assert ObjectsBytes([o]) == ObjectBytes(o) + ObjectsBytes([]);
    } else {
      ObjectsBytesSnoc(os[1..], o);
      assert (os + [o])[1..] == os[1..] + [o];
    }
  }

  method WriteArchive(h: seq<byte> -> Digest, envelope: seq<byte>, carried: seq<Carried>) returns (r: Result<seq<byte>, Refusal>)
    ensures r.Ok? <==> Writable(h, envelope, carried)
    ensures r.Ok? ==> (forall i | 0 <= i < |Sorted(Firsts(carried))| :: Sorted(Firsts(carried))[i].content.Some?)
    ensures r.Ok? ==> r.value == ArchiveBytes(envelope, Written(carried))
  {
    hide Firsts, Sorted, FileMatches, ObjectsBytes, BigEndian, KeysAscend;
    var collected := Collect(carried);
    if collected.Err? {
      return Err(collected.error);
    }
    if |envelope| >= U32_LIMIT || |collected.value| >= U32_LIMIT {
      return Err(FieldOverflow);
    }
    SortedMatch(h, carried);
    var entries := Sorted(collected.value);
    var body := WriteObjects(h, entries);
    if body.Err? {
      return Err(body.error);
    }
    r := Ok(ARCHIVE_MAGIC + BigEndian(|envelope|, 4) + envelope + BigEndian(|entries|, 4) + body.value);
  }

  // Every object written after the one before it, its file checked as it is copied.
  method WriteObjects(h: seq<byte> -> Digest, entries: seq<Carried>) returns (r: Result<seq<byte>, Refusal>)
    ensures r.Ok? <==> AllMatch(h, entries)
    ensures r.Ok? ==> (forall i | 0 <= i < |entries| :: entries[i].content.Some?) && r.value == ObjectsBytes(Objects(entries))
  {
    hide ObjectsBytes;
    var out: seq<byte> := [];
    NoObjects();
    for i := 0 to |entries|
      invariant forall k {:trigger entries[k]} | 0 <= k < i :: FileMatches(h, entries[k])
      invariant out == ObjectsBytes(Objects(entries[..i]))
    {
      var c := entries[i];
      if c.content.None? || |c.content.value| != c.artifact.bytes {
        return Err(LengthMismatch);
      }
      if c.artifact.bytes >= U64_LIMIT {
        return Err(FieldOverflow);
      }
      if h(c.content.value) != Key(c) {
        return Err(DigestMismatch);
      }
      var o := Object(Key(c), c.content.value);
      ObjectsBytesSnoc(Objects(entries[..i]), o);
      assert Objects(entries[..i + 1]) == Objects(entries[..i]) + [o];
      out := out + (Key(c) + BigEndian(c.artifact.bytes, 8) + c.content.value);
    }
    assert entries[..|entries|] == entries;
    r := Ok(out);
  }

  lemma NoObjects()
    ensures ObjectsBytes(Objects([])) == []
  {
  }

  // An object is named by one of the artifacts.
  ghost predicate IsNamed(carried: seq<Carried>, o: Object) {
    exists c | c in carried :: Key(c) == o.sha256
  }

  // An artifact's digest and length are those of one of the objects.
  ghost predicate IsCarried(os: seq<Object>, a: Artifact) {
    exists o | o in os :: o.sha256 == a.sha256 && |o.bytes| == a.bytes
  }

  ghost predicate Names(carried: seq<Carried>, os: seq<Object>) {
    && (forall o | o in os :: IsNamed(carried, o))
    && (forall c | c in carried :: IsCarried(os, c.artifact))
  }

  lemma WrittenIntact(h: seq<byte> -> Digest, s: seq<Carried>)
    requires KeysAscend(s) && AllMatch(h, s)
    ensures forall i | 0 <= i < |s| :: s[i].content.Some?
    ensures Ascending(Objects(s)) && AllIntact(h, Objects(s))
  {
    hide Less;
    forall i | 0 <= i < |s| ensures s[i].content.Some? && Intact(h, Object(Key(s[i]), s[i].content.value)) {
      assert FileMatches(h, s[i]);
    }
  }

  lemma WrittenNames(h: seq<byte> -> Digest, s: seq<Carried>, carried: seq<Carried>)
    requires AllMatch(h, s) && Consistent(carried)
    requires forall i | 0 <= i < |s| :: s[i].content.Some?
    requires forall c | c in s :: c in carried
    requires forall c | c in carried :: Get(s, Key(c)).Some?
    ensures Names(carried, Objects(s))
  {
    hide IsNamed, IsCarried, Consistent, Get;
    var os := Objects(s);
    forall o | o in os ensures IsNamed(carried, o) {
      var i :| 0 <= i < |os| && os[i] == o;
      NamedBy(carried, s[i], o);
    }
    forall c | c in carried ensures IsCarried(os, c.artifact) {
      FoundIsCarried(h, s, carried, c);
    }
  }

  lemma NamedBy(carried: seq<Carried>, c: Carried, o: Object)
    requires c in carried && Key(c) == o.sha256
    ensures IsNamed(carried, o)
  {
  }

  lemma FoundIsCarried(h: seq<byte> -> Digest, s: seq<Carried>, carried: seq<Carried>, c: Carried)
    requires AllMatch(h, s) && Consistent(carried) && c in carried
    requires forall i | 0 <= i < |s| :: s[i].content.Some?
    requires forall x | x in s :: x in carried
    requires Get(s, Key(c)).Some?
    ensures IsCarried(Objects(s), c.artifact)
  {
    var f := Get(s, Key(c)).value;
    var i :| 0 <= i < |s| && s[i] == f;
    assert FileMatches(h, s[i]);
    assert Objects(s)[i] in Objects(s);
  }

  lemma {:induction false} GetMember(cs: seq<Carried>, c: Carried)
    requires c in cs
    ensures Get(cs, Key(c)).Some?
  {
  }

  // What the writer puts in an archive: intact objects in strictly ascending digest order, one for each artifact.
  lemma WrittenObjects(h: seq<byte> -> Digest, envelope: seq<byte>, carried: seq<Carried>)
    requires Writable(h, envelope, carried)
    ensures forall i | 0 <= i < |Sorted(Firsts(carried))| :: Sorted(Firsts(carried))[i].content.Some?
    ensures var os := Written(carried);
            Ascending(os) && AllIntact(h, os) && Names(carried, os) && |os| < U32_LIMIT
    ensures InByteOrder(Written(carried))
  {
    hide InByteOrder, Firsts, Sorted, Ascending, AllIntact, Names, KeysAscend, AllMatch, Consistent;
    SortedMatch(h, carried);
    FirstsCover(carried);
    var f, s := Firsts(carried), Sorted(Firsts(carried));
    WrittenIntact(h, s);
    forall c | c in carried ensures Get(s, Key(c)).Some? {
      GetMember(s, Get(f, Key(c)).value);
    }
    WrittenNames(h, s, carried);
    AscendingIsByteOrder(Written(carried));
  }

  // Whatever the writer emits, taking it apart gives back the envelope and the objects named, and nothing more.
  lemma ReadersTakeWhatIsWritten(h: seq<byte> -> Digest, envelope: seq<byte>, carried: seq<Carried>)
    requires Writable(h, envelope, carried)
    ensures forall i | 0 <= i < |Sorted(Firsts(carried))| :: Sorted(Firsts(carried))[i].content.Some?
    ensures TakeArchive(h, ArchiveBytes(envelope, Written(carried))) == Some(Contents(envelope, Written(carried), []))
  {
    hide Firsts, Sorted, ArchiveBytes, Ascending, Names;
    WrittenObjects(h, envelope, carried);
    var os := Written(carried);
    assert ArchiveBytes(envelope, os) + [] == ArchiveBytes(envelope, os);
    TakeArchiveIsExact(h, ArchiveBytes(envelope, os), Contents(envelope, os, []));
  }
}
