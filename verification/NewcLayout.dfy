// A newc archive from its writer's side: thirteen numbers of eight hexadecimal digits behind the magic, the seventh the
// length of the data and the twelfth that of the name with its NUL (cpio's newc format). The scan of src/image/boot-policy.ts
// reads any such archive and no other, and its policies are the files of one name.
module NewcLayout {
  import opened Wrappers
  import opened Bytes
  import opened Offsets
  import opened Newc
  import opened NewcArchive

  /* -------- Headers -------- */

  function LowerByte(c: byte): byte {
    if 'A' as int <= c as int <= 'F' as int then c + 32 else c
  }

  function Lower(s: seq<byte>): (r: seq<byte>)
    ensures |r| == |s|
  {
    seq<byte>(|s|, i requires 0 <= i < |s| => LowerByte(s[i]))
  }

  function Texts(fields: seq<nat>): (s: seq<byte>)
    ensures |s| == 8 * |fields|
  {
    if fields == [] then [] else HexText(fields[0], 8, false) + Texts(fields[1..])
  }

  // The header states these numbers, in digits of either case.
  predicate HasHeader(h: seq<byte>, fields: seq<nat>) {
    && |fields| == 13 && (forall i | 0 <= i < 13 :: fields[i] < U32_LIMIT)
    && Lower(h) == Ascii("070701") + Texts(fields)
  }

  lemma HexOfLower(s: seq<byte>)
    ensures IsHex(Lower(s)) <==> IsHex(s)
    ensures IsHex(s) ==> Hex(Lower(s)) == Hex(s)
  {
    forall c: byte ensures HexValue(LowerByte(c)) == HexValue(c) {
    }
    hide HexValue, LowerByte;
    if IsHex(Lower(s)) {
      forall k | 0 <= k < |s| ensures HexValue(s[k]).Some? {
        assert HexValue(Lower(s)[k]).Some?;
      }
    }
    if IsHex(s) && s != [] {
      HexOfLower(s[..|s| - 1]);
      assert Lower(s)[..|s| - 1] == Lower(s[..|s| - 1]);
    }
  }

  lemma {:induction false} TextOfHex(s: seq<byte>)
    requires IsHex(s)
    ensures HexText(Hex(s), |s|, false) == Lower(s) && Hex(s) < Pow16(|s|)
  {
    if s != [] {
      var front, last := s[..|s| - 1], s[|s| - 1];
      TextOfHex(front);
      DigitOfValue(last);
      assert Lower(s) == Lower(front) + [LowerByte(last)];
      hide HexValue, Digit, LowerByte;
    }
  }

  lemma DigitOfValue(c: byte)
    requires HexValue(c).Some?
    ensures Digit(HexValue(c).value, false) == LowerByte(c)
  {
  }

  lemma EightDigits()
    ensures Pow16(8) == U32_LIMIT
  {
    assert Pow16(4) == 65536;
    assert Pow16(8) == 16 * (16 * (16 * (16 * Pow16(4))));
  }

  function FieldsOf(s: seq<byte>, n: nat): (fields: seq<nat>)
    requires |s| == 8 * n && IsHex(s)
    ensures |fields| == n
    decreases n
  {
    if n == 0 then [] else [Hex(s[..8])] + FieldsOf(s[8..], n - 1)
  }

  lemma {:induction false} TextsOfFields(s: seq<byte>, n: nat)
    requires |s| == 8 * n && IsHex(s)
    ensures Texts(FieldsOf(s, n)) == Lower(s) && forall i | 0 <= i < n :: FieldsOf(s, n)[i] < U32_LIMIT
    decreases n
  {
    hide HexText, HexValue, LowerByte;
    if n > 0 {
      TextsOfFields(s[8..], n - 1);
      TextOfHex(s[..8]);
      EightDigits();
      assert Lower(s) == Lower(s[..8]) + Lower(s[8..]);
    }
  }

  lemma {:induction false} TextsAreHex(fields: seq<nat>)
    requires forall i | 0 <= i < |fields| :: fields[i] < U32_LIMIT
    ensures IsHex(Texts(fields))
  {
    hide HexText, HexValue;
    if fields != [] {
      EightDigits();
      HexRoundTrip(fields[0], 8, false);
      TextsAreHex(fields[1..]);
    }
  }

  lemma {:induction false} TextAt(fields: seq<nat>, i: nat)
    requires i < |fields|
    ensures Texts(fields)[8 * i..8 * i + 8] == HexText(fields[i], 8, false)
    decreases i
  {
    hide HexText;
    var rest := Texts(fields[1..]);
    if i > 0 {
      TextAt(fields[1..], i - 1);
      assert Texts(fields)[8..] == rest;
      assert Texts(fields)[8 * i..8 * i + 8] == rest[8 * (i - 1)..8 * (i - 1) + 8];
    }
  }

  lemma LowerParts(h: seq<byte>, t: seq<byte>)
    requires |h| >= 6
    ensures Lower(h) == Ascii("070701") + t <==> h[..6] == Ascii("070701") && Lower(h[6..]) == t
  {
    var magic := Ascii("070701");
    assert Lower(h) == Lower(h[..6]) + Lower(h[6..]);
    assert Lower(h)[..6] == Lower(h[..6]) && Lower(h)[6..] == Lower(h[6..]);
    assert (magic + t)[..6] == magic && (magic + t)[6..] == t;
    if Lower(h[..6]) == magic {
      forall i | 0 <= i < 6 ensures h[i] == magic[i] {
        assert Lower(h[..6])[i] == magic[i];
      }
      assert h[..6] == magic;
    }
    if h[..6] == magic {
      assert Lower(h[..6]) == magic;
    }
  }

  // A header is one exactly where it states thirteen numbers.
  lemma HeaderExactly(h: seq<byte>)
    ensures IsHeader(h) <==> exists fields :: HasHeader(h, fields)
  {
    if IsHeader(h) {
      TextsOfFields(h[6..], 13);
      LowerParts(h, Lower(h[6..]));
      hide Texts, Lower, FieldsOf, IsHex;
      assert HasHeader(h, FieldsOf(h[6..], 13));
    }
    if fields :| HasHeader(h, fields) {
      HeaderReads(h, fields, 0);
    }
  }

  lemma HeaderReads(h: seq<byte>, fields: seq<nat>, i: nat)
    requires HasHeader(h, fields) && i < 13
    ensures IsHeader(h) && Field(h, 6 + 8 * i) == fields[i]
  {
    var t := Texts(fields);
    assert |h| == |Lower(h)| == 110;
    LowerParts(h, t);
    TextsAreHex(fields);
    HexOfLower(h[6..]);
    TextAt(fields, i);
    EightDigits();
    HexRoundTrip(fields[i], 8, false);
    HexOfLower(h[6..][8 * i..8 * i + 8]);
    assert Lower(h[6..][8 * i..8 * i + 8]) == Lower(h[6..])[8 * i..8 * i + 8];
    hide Texts, Lower, IsHex, HexText, Hex;
    SliceBehind(h, 6, 8 * i, 8);
  }

  lemma SliceBehind(s: seq<byte>, from: nat, at: nat, n: nat)
    requires from + at + n <= |s|
    ensures s[from + at..from + at + n] == s[from..][at..at + n]
  {
  }

  /* -------- Members -------- */

  // A header that states the lengths of the data and of the name.
  predicate Lengths(m: Member, fields: seq<nat>) {
    HasHeader(m.header, fields) && fields[6] == |m.data| && fields[11] == |m.name| + 1
  }

  ghost predicate ValidMember(m: Member) {
    exists fields :: Lengths(m, fields)
  }

  lemma LengthsRead(m: Member, fields: seq<nat>)
    requires HasHeader(m.header, fields)
    ensures WellFormed(m) <==> Lengths(m, fields)
  {
    HeaderReads(m.header, fields, 6);
    HeaderReads(m.header, fields, 11);
    hide IsHeader, Field, Texts, Lower;
  }

  lemma ValidIsWellFormed(m: Member)
    ensures ValidMember(m) <==> WellFormed(m)
  {
    HeaderExactly(m.header);
    if fields :| Lengths(m, fields) {
      LengthsRead(m, fields);
    }
    if fields :| HasHeader(m.header, fields) {
      LengthsRead(m, fields);
    }
    hide HasHeader, IsHeader, Field, Size, NameSize;
  }

  // The name may be given from the current directory.
  predicate IsNamed(name: seq<byte>, path: string)
    requires forall i | 0 <= i < |path| :: path[i] < 128 as char
  {
    name == Ascii(path) || name == Ascii("./") + Ascii(path)
  }

  predicate IsTrailer(m: Member) {
    IsNamed(m.name, "TRAILER!!!")
  }

  // The texts of the files of the policy's name, in order.
  function PolicyTexts(ms: seq<Member>): seq<seq<byte>> {
    if ms == [] then [] else (if IsNamed(ms[0].name, "etc/mica/boot.json") then [ms[0].data] else []) + PolicyTexts(ms[1..])
  }

  // Members with nothing but ordinary names, and an end: nothing, or a trailer and anything.
  ghost predicate IsArchive(ms: seq<Member>, end: seq<byte>) {
    && (forall i | 0 <= i < |ms| :: ValidMember(ms[i]) && !IsTrailer(ms[i]))
    && (end == [] || exists t: Member, junk: seq<byte> :: ValidMember(t) && IsTrailer(t) && end == Record(t) + junk)
    && |Encode(ms) + end| <= 67108864
  }

  lemma PlainIs(name: seq<byte>, path: string)
    requires |path| >= 2 && (forall i | 0 <= i < |path| :: path[i] < 128 as char) && path[0] != '.'
    ensures Plain(name) == Ascii(path) <==> IsNamed(name, path)
  {
    DotSlash();
    if |name| >= 2 && name[..2] == Ascii("./") {
      assert name == Ascii("./") + name[2..];
      assert name[0] == name[..2][0] && name[1] == name[..2][1];
    }
    if name == Ascii("./") + Ascii(path) {
      assert name[..2] == Ascii("./") && name[2..] == Ascii(path);
    }
    if Plain(name) != name {
      assert name[..2] == [name[0], name[1]];
    }
  }

  lemma DotSlash()
    ensures Ascii("./") == [46, 47]
  {
  }

  lemma {:induction false} PoliciesOf(ms: seq<Member>)
    ensures Policies(ms) == PolicyTexts(ms)
  {
    hide Plain, IsNamed;
    if ms != [] {
      PlainIs(ms[0].name, "etc/mica/boot.json");
      PoliciesOf(ms[1..]);
    }
  }

  lemma TrailerIs(m: Member)
    ensures IsTrailer(m) <==> Plain(m.name) == TRAILER
  {
    PlainIs(m.name, "TRAILER!!!");
  }

  lemma ArchiveIsOrdinary(ms: seq<Member>, end: seq<byte>)
    requires IsArchive(ms, end)
    ensures Ordinary(ms) && IsEnd(end)
  {
    hide Plain, IsTrailer, WellFormed, ValidMember, Record, Encode;
    forall m: Member ensures (ValidMember(m) <==> WellFormed(m)) && (IsTrailer(m) <==> Plain(m.name) == TRAILER) {
      ValidIsWellFormed(m);
      TrailerIs(m);
    }
  }

  // The JSON values the test of a second policy does not see.
  predicate IsFalsy(j: Json) {
    j == Null || j == Boolean(false) || j == Number(0.0) || j == Text("")
  }

  lemma FalsyExactly(j: Json)
    ensures Truthy(j) <==> !IsFalsy(j)
    ensures Truthy(j) && IsObject(j) <==> j.Array? || j.Object?
  {
  }

  // The last policy is an array or an object, and every earlier one is falsy.
  ghost predicate Taken(parse: seq<byte> -> Option<Json>, texts: seq<seq<byte>>) {
    && texts != []
    && (var last := parse(texts[|texts| - 1]); last.Some? && (last.value.Array? || last.value.Object?))
    && forall i | 0 <= i < |texts| - 1 :: parse(texts[i]).Some? && IsFalsy(parse(texts[i]).value)
  }

  lemma TakenIsAccepted(parse: seq<byte> -> Option<Json>, texts: seq<seq<byte>>)
    ensures Taken(parse, texts) <==> Accepted(parse, texts)
  {
    forall j: Json ensures (Truthy(j) <==> !IsFalsy(j)) && (Truthy(j) && IsObject(j) <==> j.Array? || j.Object?) {
      FalsyExactly(j);
    }
    hide Truthy, IsObject, IsFalsy;
  }

  // So the scan of any such archive yields the last of the texts under the policy's name if it is an array or an object and
  // all before it are falsy, and refuses every other archive.
  lemma ScanOfArchive(parse: seq<byte> -> Option<Json>, ms: seq<Member>, end: seq<byte>)
    requires IsArchive(ms, end)
    ensures var texts := PolicyTexts(ms);
      Chosen(parse, Members(Encode(ms) + end, 0), None) == if Taken(parse, texts) then parse(texts[|texts| - 1]) else None
  {
    ArchiveIsOrdinary(ms, end);
    PoliciesOf(ms);
    TakenIsAccepted(parse, PolicyTexts(ms));
    ScanIsExact(parse, ms, end);
    hide Ordinary, IsEnd, Encode, Members, Chosen, Policies, PolicyTexts, Accepted;
  }

  /* -------- Whatever is read is laid out so -------- */

  // The next multiple of four.
  function Up4(n: nat): (m: nat)
    ensures n <= m < n + 4 && m % 4 == 0
  {
    n + (4 - n % 4) % 4
  }

  // A member stands at an offset, its data behind its name and the next member behind its data, at multiples of four.
  ghost predicate Stands(cpio: seq<byte>, at: nat, m: Member, next: nat) {
    && ValidMember(m) && At(cpio, at, m.header + (m.name + [0]))
    && var data := Up4(at + 110 + |m.name| + 1);
    At(cpio, data, m.data) && next == Up4(data + |m.data|)
  }

  lemma MaskedIs(n: nat)
    requires n <= 0x7000_0000
    ensures Masked(n + 3) == Up4(n)
  {
  }

  lemma ReadExactly(cpio: seq<byte>, at: nat, m: Member, next: nat)
    requires |cpio| <= CPIO_LIMIT && at < |cpio|
    ensures Stands(cpio, at, m, next) <==> Read(cpio, at) == Ok(Located(m, next))
  {
    ValidIsWellFormed(m);
    hide ValidMember, Masked;
    if Stands(cpio, at, m, next) {
      StandsIsRead(cpio, at, m, next);
    }
    if Read(cpio, at) == Ok(Located(m, next)) {
      ReadStands(cpio, at, m, next);
    }
  }

  lemma StandsIsRead(cpio: seq<byte>, at: nat, m: Member, next: nat)
    requires |cpio| <= CPIO_LIMIT && at < |cpio| && WellFormed(m) && Stands(cpio, at, m, next)
    ensures Read(cpio, at) == Ok(Located(m, next))
  {
    hide ValidMember, Read, WellFormed, Masked, Up4;
    HeaderLength(m);
    AtConcat(cpio, at, m.header, m.name + [0]);
    NameStands(cpio, at + 110, m.name);
    var data := Up4(at + 110 + |m.name| + 1);
    MaskedIs(at + 110 + |m.name| + 1);
    MaskedIs(data + |m.data|);
    ReadIs(cpio, at, m, data, next);
  }

  lemma HeaderLength(m: Member)
    requires WellFormed(m)
    ensures |m.header| == 110
  {
    hide Size, NameSize;
  }

  lemma ReadStands(cpio: seq<byte>, at: nat, m: Member, next: nat)
    requires |cpio| <= CPIO_LIMIT && at < |cpio| && Read(cpio, at) == Ok(Located(m, next))
    ensures WellFormed(m) && Stands(cpio, at, m, next)
  {
    hide Read, WellFormed, ValidMember, Masked, At, Up4, Stands;
    ReadParts(cpio, at, m, next);
    ValidIsWellFormed(m);
    var nameEnd := at + 110 + |m.name| + 1;
    MaskedIs(nameEnd);
    MaskedIs(Up4(nameEnd) + |m.data|);
    AtJoin(cpio, at + 110, m.name, [0]);
    AtJoin(cpio, at, m.header, m.name + [0]);
    Standing(cpio, at, m, Up4(nameEnd));
  }

  lemma Standing(cpio: seq<byte>, at: nat, m: Member, data: nat)
    requires ValidMember(m) && At(cpio, at, m.header + (m.name + [0])) && data == Up4(at + 110 + |m.name| + 1) && At(cpio, data, m.data)
    ensures Stands(cpio, at, m, Up4(data + |m.data|))
  {
    hide ValidMember, At, Up4;
  }

  lemma ReadParts(cpio: seq<byte>, at: nat, m: Member, next: nat)
    requires |cpio| <= CPIO_LIMIT && at < |cpio| && Read(cpio, at) == Ok(Located(m, next))
    ensures WellFormed(m) && |m.header| == 110 && At(cpio, at, m.header) && At(cpio, at + 110, m.name)
    ensures At(cpio, at + 110 + |m.name|, [0])
    ensures var nameEnd := at + 110 + |m.name| + 1;
      nameEnd <= |cpio| && 0 <= Masked(nameEnd + 3) && Masked(nameEnd + 3) + |m.data| <= |cpio|
      && At(cpio, Masked(nameEnd + 3), m.data) && next == Masked(Masked(nameEnd + 3) + |m.data| + 3)
  {
    hide Size, NameSize;
    var end := at + 110 + |m.name|;
    assert cpio[end..end + 1] == [cpio[end]];
  }

  // The members from an offset on, up to a trailer or the end of the archive.
  ghost predicate IsChain(cpio: seq<byte>, at: nat, ms: seq<Member>)
    decreases |ms|
  {
    if ms == [] then at >= |cpio| || exists t, next :: Stands(cpio, at, t, next) && IsTrailer(t)
    else at < |cpio| && !IsTrailer(ms[0]) && exists next :: Stands(cpio, at, ms[0], next) && IsChain(cpio, next, ms[1..])
  }

  lemma {:induction false} MembersExactly(cpio: seq<byte>, at: nat, ms: seq<Member>)
    requires |cpio| <= CPIO_LIMIT
    ensures Members(cpio, at) == Some(ms) <==> IsChain(cpio, at, ms)
    decreases |cpio| - at
  {
    hide Read, Stands, IsTrailer, Plain;
    if at < |cpio| {
      forall m: Member, next: nat ensures Stands(cpio, at, m, next) <==> Read(cpio, at) == Ok(Located(m, next)) {
        ReadExactly(cpio, at, m, next);
      }
      if Read(cpio, at).Ok? {
        var l := Read(cpio, at).value;
        TrailerIs(l.member);
        if !IsTrailer(l.member) && ms != [] {
          MembersExactly(cpio, l.next, ms[1..]);
          MembersStep(cpio, at, ms);
        }
      }
    } else {
      ChainEnds(cpio, at, ms);
    }
  }

  lemma ChainEnds(cpio: seq<byte>, at: nat, ms: seq<Member>)
    requires at >= |cpio|
    ensures IsChain(cpio, at, ms) <==> ms == []
  {
  }

  lemma MembersStep(cpio: seq<byte>, at: nat, ms: seq<Member>)
    requires |cpio| <= CPIO_LIMIT && at < |cpio| && ms != [] && Read(cpio, at).Ok?
    requires Plain(Read(cpio, at).value.member.name) != TRAILER
    ensures Members(cpio, at) == Some(ms)
      <==> Read(cpio, at).value.member == ms[0] && Members(cpio, Read(cpio, at).value.next) == Some(ms[1..])
  {
    hide Read, Plain;
    if Members(cpio, Read(cpio, at).value.next).Some? {
      var m, rest := Read(cpio, at).value.member, Members(cpio, Read(cpio, at).value.next).value;
      assert ([m] + rest)[1..] == rest && ([m] + rest)[0] == m;
      assert ms == [ms[0]] + ms[1..];
    }
  }

  ghost predicate HoldsPolicy(parse: seq<byte> -> Option<Json>, cpio: seq<byte>, ms: seq<Member>, j: Json) {
    var texts := PolicyTexts(ms);
    IsChain(cpio, 0, ms) && Taken(parse, texts) && parse(texts[|texts| - 1]) == Some(j)
  }

  // A policy is found in an archive, whatever its bytes, if and only if members stand in it one behind the other up to a
  // trailer or its end, and of their texts under the name the last is an array or object and all before it are falsy.
  lemma PolicyExactly(parse: seq<byte> -> Option<Json>, cpio: seq<byte>, j: Json)
    requires |cpio| <= CPIO_LIMIT
    ensures Chosen(parse, Members(cpio, 0), None) == Some(j) <==> exists ms :: HoldsPolicy(parse, cpio, ms, j)
  {
    hide Members, IsChain, Chosen, Taken, PolicyTexts, Accepted, Policies;
    forall ms ensures Members(cpio, 0) == Some(ms) <==> IsChain(cpio, 0, ms) {
      MembersExactly(cpio, 0, ms);
    }
    if Members(cpio, 0).Some? {
      var ms := Members(cpio, 0).value;
      ChosenOf(parse, ms);
      assert HoldsPolicy(parse, cpio, ms, j) <==> Chosen(parse, Some(ms), None) == Some(j);
    } else {
      NoneChosen(parse);
    }
  }

  lemma ChosenOf(parse: seq<byte> -> Option<Json>, ms: seq<Member>)
    ensures Chosen(parse, Some(ms), None) == if Taken(parse, PolicyTexts(ms)) then parse(PolicyTexts(ms)[|PolicyTexts(ms)| - 1]) else None
    ensures Taken(parse, PolicyTexts(ms)) ==> PolicyTexts(ms) != []
  {
    PoliciesOf(ms);
    TakenIsAccepted(parse, PolicyTexts(ms));
    ChosenIsExact(parse, ms);
    hide Chosen, Policies, PolicyTexts, Accepted;
  }

  lemma NoneChosen(parse: seq<byte> -> Option<Json>)
    ensures Chosen(parse, None, None) == None
  {
  }
}
