// Archives as the newc format lays them out, and what the scan makes of them.
module NewcArchive {
  import opened Wrappers
  import opened Bytes
  import opened Offsets
  import opened Newc

  /* -------- Writing -------- */

  function Digit(d: nat, upper: bool): byte
    requires d < 16
  {
    if d < 10 then 48 + d else if upper then 55 + d else 87 + d
  }

  function HexText(n: nat, width: nat, upper: bool): (s: seq<byte>)
    ensures |s| == width
  {
    if width == 0 then [] else HexText(n / 16, width - 1, upper) + [Digit(n % 16, upper)]
  }

  function Pow16(k: nat): (p: nat)
    ensures p > 0
  {
    if k == 0 then 1 else 16 * Pow16(k - 1)
  }

  // Numbers are read back in either case.
  lemma {:induction false} HexRoundTrip(n: nat, width: nat, upper: bool)
    requires n < Pow16(width)
    ensures IsHex(HexText(n, width, upper)) && Hex(HexText(n, width, upper)) == n
  {
    if width > 0 {
      HexRoundTrip(n / 16, width - 1, upper);
      assert HexText(n, width, upper)[..width - 1] == HexText(n / 16, width - 1, upper);
    }
  }

  // A member whose header states its sizes; the other eleven numbers are any.
  predicate WellFormed(m: Member) {
    IsHeader(m.header) && Size(m.header) == |m.data| && NameSize(m.header) == |m.name| + 1
  }

  function Record(m: Member): seq<byte> {
    (m.header + (m.name + [0])) + (Padding(|m.header| + |m.name| + 1) + (m.data + Padding(|m.data|)))
  }

  function Encode(ms: seq<Member>): seq<byte> {
    if ms == [] then [] else Record(ms[0]) + Encode(ms[1..])
  }

  /* -------- Reading back -------- */

  lemma RecordIsAligned(m: Member)
    ensures |Record(m)| % 4 == 0 && (IsHeader(m.header) ==> |Record(m)| > HEADER)
  {
    var a, b := |m.header| + |m.name| + 1, |m.data|;
    var p, q := |Padding(a)|, |Padding(b)|;
    assert |Record(m)| == (a + p) + (b + q);
    assert IsHeader(m.header) ==> |m.header| == HEADER;
    hide *;
    Fours(a + p, b + q);
  }

  lemma Fours(a: nat, b: nat)
    requires a % 4 == 0 && b % 4 == 0
    ensures (a + b) % 4 == 0
  {
  }

  lemma AlignedEnd(at: nat, x: nat, padding: nat)
    requires at % 4 == 0 && (x + padding) % 4 == 0 && padding < 4 && at + x + padding <= CPIO_LIMIT
    ensures Masked(at + x + 3) == at + x + padding
  {
    hide Masked;
    assert (at + (x + padding)) % 4 == 0;
  }

  // Where a record's data starts, from where the record does.
  function DataAt(m: Member): nat {
    |m.header| + |m.name| + 1 + |Padding(|m.header| + |m.name| + 1)|
  }

  // Where the parts of a record stand.
  lemma RecordParts(cpio: seq<byte>, at: nat, m: Member)
    requires At(cpio, at, Record(m))
    ensures At(cpio, at, m.header) && At(cpio, at + |m.header|, m.name + [0]) && At(cpio, at + DataAt(m), m.data)
  {
    hide At, Padding;
    var head := m.header + (m.name + [0]);
    var p, q := Padding(|m.header| + |m.name| + 1), Padding(|m.data|);
    AtConcat(cpio, at, head, p + (m.data + q));
    AtConcat(cpio, at, m.header, m.name + [0]);
    AtConcat(cpio, at + |head|, p, m.data + q);
    AtConcat(cpio, at + |head| + |p|, m.data, q);
  }

  // The scan's rounding finds the data, and the next record.
  lemma RecordEnds(at: nat, m: Member)
    requires at % 4 == 0 && at + |Record(m)| <= CPIO_LIMIT
    ensures Masked(at + |m.header| + |m.name| + 1 + 3) == at + DataAt(m)
    ensures Masked(at + DataAt(m) + |m.data| + 3) == at + |Record(m)|
  {
    var head, p, q := |m.header| + |m.name| + 1, |Padding(|m.header| + |m.name| + 1)|, |Padding(|m.data|)|;
    assert |Record(m)| == head + p + |m.data| + q;
    hide *;
    AlignedEnd(at, head, p);
    AlignedEnd(at + (head + p), |m.data|, q);
  }

  lemma AtEnds(s: seq<byte>, at: nat, b: seq<byte>)
    requires At(s, at, b)
    ensures at + |b| <= |s| && s[at..at + |b|] == b
  {
  }

  lemma ReadsRecord(cpio: seq<byte>, at: nat, m: Member)
    requires |cpio| <= CPIO_LIMIT && at % 4 == 0 && WellFormed(m) && At(cpio, at, Record(m))
    ensures at < |cpio| && Read(cpio, at) == Ok(Located(m, at + |Record(m)|))
  {
    hide *;
    RecordIsLong(m);
    RecordParts(cpio, at, m);
    AtEnds(cpio, at, Record(m));
    RecordEnds(at, m);
    AtEnds(cpio, at, m.header);
    AtEnds(cpio, at + DataAt(m), m.data);
    NameStands(cpio, at + |m.header|, m.name);
    ReadIs(cpio, at, m, at + DataAt(m), at + |Record(m)|);
  }

  lemma RecordIsLong(m: Member)
    requires WellFormed(m)
    ensures |m.header| == HEADER && |Record(m)| > 0
  {
    hide Size, NameSize;
  }

  lemma ReadIs(cpio: seq<byte>, at: nat, m: Member, data: nat, next: nat)
    requires |cpio| <= CPIO_LIMIT && WellFormed(m) && next > at && |m.header| == HEADER
    requires at + |m.header| + |m.name| < |cpio| && cpio[at..at + |m.header|] == m.header
    requires cpio[at + HEADER + |m.name|] == 0 && cpio[at + HEADER..at + HEADER + |m.name|] == m.name
    requires data + |m.data| <= |cpio| && cpio[data..data + |m.data|] == m.data
    requires Masked(at + |m.header| + |m.name| + 1 + 3) == data && Masked(data + |m.data| + 3) == next
    ensures Read(cpio, at) == Ok(Located(m, next))
  {
    hide Size, NameSize, IsHeader, Masked;
  }

  lemma NameStands(cpio: seq<byte>, at: nat, name: seq<byte>)
    requires At(cpio, at, name + [0])
    ensures at + |name| < |cpio| && cpio[at + |name|] == 0 && cpio[at..at + |name|] == name
  {
    var text := name + [0];
    assert cpio[at + |name|] == cpio[at..at + |text|][|name|] == text[|name|];
    assert cpio[at..at + |name|] == text[..|name|] == name;
  }

  // What follows the members: nothing, or a trailer and anything after it.
  ghost predicate IsEnd(end: seq<byte>) {
    end == [] || exists t: Member, junk: seq<byte> :: WellFormed(t) && Plain(t.name) == TRAILER && end == Record(t) + junk
  }

  ghost predicate Ordinary(ms: seq<Member>) {
    forall i | 0 <= i < |ms| :: WellFormed(ms[i]) && Plain(ms[i].name) != TRAILER
  }

  lemma {:induction false} MembersRoundTrip(cpio: seq<byte>, at: nat, ms: seq<Member>, end: seq<byte>)
    requires |cpio| <= CPIO_LIMIT && at % 4 == 0 && at + |Encode(ms) + end| == |cpio| && At(cpio, at, Encode(ms) + end)
    requires Ordinary(ms) && IsEnd(end)
    ensures Members(cpio, at) == Some(ms)
    decreases |ms|
  {
    hide Plain, WellFormed, Record, At, Read, TRAILER;
    if ms == [] {
      assert Encode(ms) + end == end;
      if end != [] {
        var t: Member, junk: seq<byte> :| WellFormed(t) && Plain(t.name) == TRAILER && end == Record(t) + junk;
        AtConcat(cpio, at, Record(t), junk);
        ReadsRecord(cpio, at, t);
      }
    } else {
      var m, rest := ms[0], ms[1..];
      assert Encode(ms) + end == Record(m) + (Encode(rest) + end);
      AtConcat(cpio, at, Record(m), Encode(rest) + end);
      ReadsRecord(cpio, at, m);
      RecordIsAligned(m);
      MembersRoundTrip(cpio, at + |Record(m)|, rest, end);
      assert ms == [m] + rest;
    }
  }

  /* -------- Which policy is chosen -------- */

  predicate Falsy(parse: seq<byte> -> Option<Json>, text: seq<byte>) {
    parse(text).Some? && !Truthy(parse(text).value)
  }

  predicate Usable(parse: seq<byte> -> Option<Json>, text: seq<byte>) {
    parse(text).Some? && Truthy(parse(text).value) && IsObject(parse(text).value)
  }

  // The last policy is an object, and any before it are falsy values, which the test for a second one does not see.
  ghost predicate Accepted(parse: seq<byte> -> Option<Json>, policies: seq<seq<byte>>) {
    && policies != [] && Usable(parse, policies[|policies| - 1])
    && forall i | 0 <= i < |policies| - 1 :: Falsy(parse, policies[i])
  }

  lemma {:induction false} HeldIs(parse: seq<byte> -> Option<Json>, found: Option<Json>, policies: seq<seq<byte>>)
    requires found.Some? ==> !Truthy(found.value)
    requires policies != []
    ensures (match Held(parse, found, policies) case Some(Some(j)) => Truthy(j) && IsObject(j) case _ => false) <==> Accepted(parse, policies)
    ensures Accepted(parse, policies) ==> Held(parse, found, policies) == Some(parse(policies[|policies| - 1]))
    decreases |policies|
  {
    hide Truthy, IsObject;
    var rest := policies[1..];
    if rest != [] {
      assert policies[|policies| - 1] == rest[|rest| - 1];
      assert forall i | 1 <= i < |policies| :: policies[i] == rest[i - 1];
      if Falsy(parse, policies[0]) {
        HeldIs(parse, parse(policies[0]), rest);
      }
    }
  }

  // The scan of any archive is decided by the members under the policy's name, and by nothing else in it.
  lemma ScanIsExact(parse: seq<byte> -> Option<Json>, ms: seq<Member>, end: seq<byte>)
    requires Ordinary(ms) && IsEnd(end) && |Encode(ms) + end| <= CPIO_LIMIT
    ensures Chosen(parse, Members(Encode(ms) + end, 0), None)
         == if Accepted(parse, Policies(ms)) then parse(Policies(ms)[|Policies(ms)| - 1]) else None
  {
    hide IsEnd, Ordinary, Accepted, Encode, Members, Chosen, Policies;
    AtPrefix(Encode(ms) + end, []);
    assert Encode(ms) + end + [] == Encode(ms) + end;
    MembersRoundTrip(Encode(ms) + end, 0, ms, end);
    ChosenIsExact(parse, ms);
  }

  lemma ChosenIsExact(parse: seq<byte> -> Option<Json>, ms: seq<Member>)
    ensures Chosen(parse, Some(ms), None) == if Accepted(parse, Policies(ms)) then parse(Policies(ms)[|Policies(ms)| - 1]) else None
  {
    hide Truthy, IsObject, Accepted, Policies;
    if Policies(ms) != [] {
      HeldIs(parse, None, Policies(ms));
      hide Held;
    } else {
      NoPolicies(parse);
    }
  }

  lemma NoPolicies(parse: seq<byte> -> Option<Json>)
    ensures !Accepted(parse, [])
  {
  }

  // One policy is accepted exactly when it is an object. Several are accepted exactly when all but the last are falsy and
  // the last is an object: the scan refuses every second policy if and only if the first is not falsy.
  lemma OneOrSeveral(parse: seq<byte> -> Option<Json>, policies: seq<seq<byte>>)
    ensures |policies| == 1 ==> (Accepted(parse, policies) <==> Usable(parse, policies[0]))
    ensures Accepted(parse, policies) ==> (|policies| == 1 <==> !Falsy(parse, policies[0]))
  {
  }

  lemma TwoPolicies(a: Member, b: Member)
    requires Plain(a.name) == POLICY_NAME && Plain(b.name) == POLICY_NAME
    ensures Policies([a, b]) == [a.data, b.data]
  {
    hide Plain;
    assert [a, b][1..] == [b] && [b][1..] == [];
    assert Policies([b]) == [b.data] + [];
    assert Policies([a, b]) == [a.data] + Policies([b]);
  }

  // So a second policy is not always refused: in any archive that holds two, of which the first parses to null, the second
  // is taken.
  lemma FalsyPolicyIsReplaced(parse: seq<byte> -> Option<Json>, a: Member, b: Member, end: seq<byte>)
    requires WellFormed(a) && WellFormed(b) && Plain(a.name) == POLICY_NAME && Plain(b.name) == POLICY_NAME
    requires IsEnd(end) && |Encode([a, b]) + end| <= CPIO_LIMIT
    requires parse(a.data) == Some(Null) && parse(b.data).Some? && parse(b.data).value.Object?
    ensures Chosen(parse, Members(Encode([a, b]) + end, 0), None) == parse(b.data)
  {
    hide Plain, WellFormed, Members, Chosen, Encode, IsEnd;
    NamesDiffer();
    TwoPolicies(a, b);
    ScanIsExact(parse, [a, b], end);
  }

  lemma NamesDiffer()
    ensures POLICY_NAME != TRAILER
  {
    assert POLICY_NAME[0] != TRAILER[0];
  }
}
