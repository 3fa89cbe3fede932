// A unified kernel image from its writer's side: the DOS and PE headers and the section table of the PE format, anything
// else around them. The initrd found (the uki branch of bootPolicy, src/image/boot-policy.ts) is that of the one section of
// the name.
module UkiLayout {
  import opened Wrappers
  import opened Bytes
  import opened Buffers
  import opened Offsets
  import opened Uki

  // A section's header: its name padded with zeros, its size in memory, its address, its size and place in the file.
  datatype Header = Header(name: seq<byte>, size: nat, address: nat, raw: nat, from: nat, rest: seq<byte>)

  predicate ValidHeader(h: Header) {
    |h.name| == 8 && h.size < U32_LIMIT && h.raw < U32_LIMIT && h.from < U32_LIMIT && |h.rest| == 16
  }

  function HeaderBytes(h: Header): seq<byte> {
    h.name + (Little(h.size, 4) + (Little(h.address, 4) + (Little(h.raw, 4) + (Little(h.from, 4) + h.rest))))
  }

  function Table(hs: seq<Header>): seq<byte> {
    if hs == [] then [] else HeaderBytes(hs[0]) + Table(hs[1..])
  }

  // The PE signature and file header, which count the sections and the optional header, and the two behind them.
  datatype Pe = Pe(machine: seq<byte>, middle: seq<byte>, flags: seq<byte>, optional: seq<byte>, sections: seq<Header>)

  predicate ValidPe(p: Pe) {
    && |p.machine| == 2 && |p.middle| == 12 && |p.flags| == 2 && |p.optional| < 0x1_0000 && |p.sections| < 0x1_0000
    && forall i | 0 <= i < |p.sections| :: ValidHeader(p.sections[i])
  }

  function PeBytes(p: Pe): seq<byte> {
    [0x50, 0x45, 0, 0] + (p.machine + (Little(|p.sections|, 2) + (p.middle + (Little(|p.optional|, 2) + (p.flags + (p.optional + Table(p.sections)))))))
  }

  ghost predicate IsUki(boot: seq<byte>, at: nat, p: Pe) {
    && ValidPe(p) && at < U32_LIMIT && At(boot, 0, [0x4d, 0x5a]) && At(boot, 60, Little(at, 4)) && At(boot, at, PeBytes(p))
  }

  lemma ReadsTwo(s: seq<byte>, at: nat, n: nat)
    requires n < 0x1_0000 && At(s, at, Little(n, 2))
    ensures U16(s, at) == n
  {
    assert Little(n / 256, 1) == [n / 256 % 256];
    var b := s[at..at + 2];
    assert b[0] == s[at] && b[1] == s[at + 1];
  }

  lemma ReadsPe(boot: seq<byte>, at: nat, p: Pe)
    requires IsUki(boot, at, p)
    ensures IsPe(boot) && U32(boot, 60) == at && SectionCount(boot) == |p.sections|
    ensures at + 24 + |p.optional| <= |boot| && At(boot, at + 24 + |p.optional|, Table(p.sections))
    ensures U16(boot, at + 20) == |p.optional|
  {
    hide U32, U16, Little, Table, ValidHeader;
    ReadsLittle(boot, 60, at);
    var behind := p.optional + Table(p.sections);
    var optional := Little(|p.optional|, 2) + (p.flags + behind);
    var sections := Little(|p.sections|, 2) + (p.middle + optional);
    AtConcat(boot, at, [0x50, 0x45, 0, 0], p.machine + sections);
    AtConcat(boot, at + 4, p.machine, sections);
    AtConcat(boot, at + 6, Little(|p.sections|, 2), p.middle + optional);
    AtConcat(boot, at + 8, p.middle, optional);
    AtConcat(boot, at + 20, Little(|p.optional|, 2), p.flags + behind);
    AtConcat(boot, at + 22, p.flags, behind);
    AtConcat(boot, at + 24, p.optional, Table(p.sections));
    ReadsTwo(boot, at + 6, |p.sections|);
    ReadsTwo(boot, at + 20, |p.optional|);
  }

  lemma {:induction false} HeaderAt(s: seq<byte>, at: nat, hs: seq<Header>, i: nat)
    requires At(s, at, Table(hs)) && i < |hs| && forall k | 0 <= k < |hs| :: ValidHeader(hs[k])
    ensures At(s, at + 40 * i, HeaderBytes(hs[i])) && at + 40 * i + 40 <= |s|
    decreases i
  {
    assert ValidHeader(hs[0]);
    hide Little;
    AtConcat(s, at, HeaderBytes(hs[0]), Table(hs[1..]));
    if i > 0 {
      assert hs[1..][i - 1] == hs[i];
      HeaderAt(s, at + 40, hs[1..], i - 1);
    }
  }

  lemma ReadsHeader(s: seq<byte>, at: nat, h: Header)
    requires ValidHeader(h) && At(s, at, HeaderBytes(h))
    ensures at + 40 <= |s| && s[at..at + 8] == h.name
    ensures U32(s, at + 8) == h.size && U32(s, at + 16) == h.raw && U32(s, at + 20) == h.from
  {
    hide U32, Little;
    var from := Little(h.from, 4) + h.rest;
    var raw := Little(h.raw, 4) + from;
    var address := Little(h.address, 4) + raw;
    AtConcat(s, at, h.name, Little(h.size, 4) + address);
    AtConcat(s, at + 8, Little(h.size, 4), address);
    AtConcat(s, at + 12, Little(h.address, 4), raw);
    AtConcat(s, at + 16, Little(h.raw, 4), from);
    AtConcat(s, at + 20, Little(h.from, 4), h.rest);
    ReadsLittle(s, at + 8, h.size);
    ReadsLittle(s, at + 16, h.raw);
    ReadsLittle(s, at + 20, h.from);
  }

  // Every section is read from its header.
  lemma ReadsSection(boot: seq<byte>, at: nat, p: Pe, i: nat)
    requires IsUki(boot, at, p) && i < |p.sections|
    ensures IsPe(boot) && Inside(boot, i)
    ensures IsInitrd(boot, i) <==> p.sections[i].name == Ascii(".initrd") + [0]
    ensures var h := p.sections[i];
      Section(boot, i) == if h.size <= h.raw && h.from + h.size <= |boot| then Some(boot[h.from..h.from + h.size]) else None
  {
    hide U32, U16, Little, Table, HeaderBytes;
    ReadsPe(boot, at, p);
    HeaderAt(boot, at + 24 + |p.optional|, p.sections, i);
    ReadsHeader(boot, at + 24 + |p.optional| + 40 * i, p.sections[i]);
    InitrdName();
  }

  lemma InitrdName()
    ensures Ascii(".initrd") + [0] == INITRD_NAME
  {
  }

  // The section of the name, the only one, no longer in memory than in the file and inside it; and the bytes there.
  ghost predicate IsOnlyInitrd(boot: seq<byte>, p: Pe, i: int, initrd: seq<byte>) {
    && 0 <= i < |p.sections| && p.sections[i].name == Ascii(".initrd") + [0]
    && (forall j | 0 <= j < |p.sections| && p.sections[j].name == Ascii(".initrd") + [0] :: j == i)
    && p.sections[i].size <= p.sections[i].raw && p.sections[i].from + p.sections[i].size <= |boot|
    && initrd == boot[p.sections[i].from..p.sections[i].from + p.sections[i].size]
  }

  function SectionOf(boot: seq<byte>, h: Header): Option<seq<byte>> {
    if h.size <= h.raw && h.from + h.size <= |boot| then Some(boot[h.from..h.from + h.size]) else None
  }

  lemma ReadsSections(boot: seq<byte>, at: nat, p: Pe)
    requires IsUki(boot, at, p)
    ensures IsPe(boot) && SectionCount(boot) == |p.sections|
    ensures forall i | 0 <= i < |p.sections| ::
      && Inside(boot, i) && (IsInitrd(boot, i) <==> p.sections[i].name == Ascii(".initrd") + [0])
      && Section(boot, i) == SectionOf(boot, p.sections[i])
  {
    ReadsPe(boot, at, p);
    hide IsPe, Inside, IsInitrd, Section, SectionCount, IsUki, Ascii;
    forall i | 0 <= i < |p.sections|
      ensures Inside(boot, i) && (IsInitrd(boot, i) <==> p.sections[i].name == Ascii(".initrd") + [0])
      ensures Section(boot, i) == SectionOf(boot, p.sections[i])
    {
      ReadsSection(boot, at, p, i);
    }
  }

  lemma HoldsOfUki(boot: seq<byte>, at: nat, p: Pe, initrd: seq<byte>)
    requires IsUki(boot, at, p)
    ensures Holds(boot, initrd) <==> exists i :: IsOnlyInitrd(boot, p, i, initrd)
  {
    hide IsPe, Inside, IsInitrd, Section, SectionCount, IsUki, Ascii, U32, U16;
    ReadsSections(boot, at, p);
    if Holds(boot, initrd) {
      var i :| 0 <= i < SectionCount(boot) && IsInitrd(boot, i) && Section(boot, i) == Some(initrd)
        && forall j | 0 <= j < SectionCount(boot) && IsInitrd(boot, j) :: j == i;
      assert IsOnlyInitrd(boot, p, i, initrd);
    }
  }

  /* -------- Whatever is read so is laid out so -------- */

  function HeaderOf(s: seq<byte>, at: nat): Header
    requires at + 40 <= |s|
  {
    Header(s[at..at + 8], U32(s, at + 8), U32(s, at + 12), U32(s, at + 16), U32(s, at + 20), s[at + 24..at + 40])
  }

  lemma HeaderStands(s: seq<byte>, at: nat)
    requires at + 40 <= |s|
    ensures ValidHeader(HeaderOf(s, at)) && At(s, at, HeaderBytes(HeaderOf(s, at)))
  {
    LittleOf(s, at + 8);
    LittleOf(s, at + 12);
    LittleOf(s, at + 16);
    LittleOf(s, at + 20);
    hide U32, Little;
    var h := HeaderOf(s, at);
    AtJoin(s, at + 20, Little(h.from, 4), h.rest);
    AtJoin(s, at + 16, Little(h.raw, 4), Little(h.from, 4) + h.rest);
    AtJoin(s, at + 12, Little(h.address, 4), Little(h.raw, 4) + (Little(h.from, 4) + h.rest));
    AtJoin(s, at + 8, Little(h.size, 4), Little(h.address, 4) + (Little(h.raw, 4) + (Little(h.from, 4) + h.rest)));
    AtJoin(s, at, h.name, Little(h.size, 4) + (Little(h.address, 4) + (Little(h.raw, 4) + (Little(h.from, 4) + h.rest))));
  }

  function HeadersOf(s: seq<byte>, at: nat, n: nat): (hs: seq<Header>)
    requires at + 40 * n <= |s|
    ensures |hs| == n
    decreases n
  {
    if n == 0 then [] else [HeaderOf(s, at)] + HeadersOf(s, at + 40, n - 1)
  }

  lemma {:induction false} TableStands(s: seq<byte>, at: nat, n: nat)
    requires at + 40 * n <= |s|
    ensures At(s, at, Table(HeadersOf(s, at, n))) && forall i | 0 <= i < n :: ValidHeader(HeadersOf(s, at, n)[i])
    decreases n
  {
    hide HeaderOf, HeaderBytes, ValidHeader;
    if n > 0 {
      HeaderStands(s, at);
      TableStands(s, at + 40, n - 1);
      HeaderIsLong(s, at);
      AtJoin(s, at, HeaderBytes(HeaderOf(s, at)), Table(HeadersOf(s, at + 40, n - 1)));
    }
  }

  lemma HeaderIsLong(s: seq<byte>, at: nat)
    requires at + 40 <= |s|
    ensures |HeaderBytes(HeaderOf(s, at))| == 40
  {
    hide Little, U32;
  }

  lemma TwoOf(s: seq<byte>, at: nat)
    requires at + 2 <= |s|
    ensures At(s, at, Little(U16(s, at), 2)) && U16(s, at) < 0x1_0000
  {
    LittleDigit(s[at], s[at + 1], 2);
    LittleDigit(s[at + 1], 0, 1);
    assert Little(0, 0) == [];
    hide Little;
    assert s[at..at + 2] == [s[at], s[at + 1]];
  }

  function PeOf(s: seq<byte>, at: nat): Pe
    requires at + 24 <= |s| && at + 24 + U16(s, at + 20) + 40 * U16(s, at + 6) <= |s|
  {
    var optional := U16(s, at + 20);
    Pe(s[at + 4..at + 6], s[at + 8..at + 20], s[at + 22..at + 24], s[at + 24..at + 24 + optional],
       HeadersOf(s, at + 24 + optional, U16(s, at + 6)))
  }

  lemma PeStands(s: seq<byte>, at: nat)
    requires at + 24 <= |s| && at + 24 + U16(s, at + 20) + 40 * U16(s, at + 6) <= |s|
    requires s[at..at + 4] == [0x50, 0x45, 0, 0]
    ensures ValidPe(PeOf(s, at)) && At(s, at, PeBytes(PeOf(s, at)))
  {
    hide U16, Little, Table, HeadersOf, ValidHeader;
    TwoOf(s, at + 6);
    TwoOf(s, at + 20);
    var optional := U16(s, at + 20);
    TableStands(s, at + 24 + optional, U16(s, at + 6));
    var p := PeOf(s, at);
    Standing(s, at + 4, 2);
    Standing(s, at + 8, 12);
    Standing(s, at + 22, 2);
    Standing(s, at + 24, optional);
    hide At;
    AtSeven(s, at, p.machine, Little(|p.sections|, 2), p.middle, Little(optional, 2), p.flags, p.optional, Table(p.sections));
  }

  lemma Standing(s: seq<byte>, at: nat, n: nat)
    requires at + n <= |s|
    ensures At(s, at, s[at..at + n])
  {
  }

  // The parts of the headers one behind the other.
  lemma AtSeven(s: seq<byte>, at: nat, a: seq<byte>, b: seq<byte>, c: seq<byte>, d: seq<byte>, e: seq<byte>, f: seq<byte>, g: seq<byte>)
    requires |a| == |b| == |d| == |e| == 2 && |c| == 12
    requires at + 4 <= |s| && s[at..at + 4] == [0x50, 0x45, 0, 0] && At(s, at + 4, a) && At(s, at + 6, b) && At(s, at + 8, c) && At(s, at + 20, d) && At(s, at + 22, e)
    requires At(s, at + 24, f) && At(s, at + 24 + |f|, g)
    ensures At(s, at, [0x50, 0x45, 0, 0] + (a + (b + (c + (d + (e + (f + g)))))))
  {
    assert At(s, at, [0x50, 0x45, 0, 0]);
    hide At;
    AtJoin(s, at + 24, f, g);
    AtJoin(s, at + 22, e, f + g);
    AtJoin(s, at + 20, d, e + (f + g));
    AtJoin(s, at + 8, c, d + (e + (f + g)));
    AtJoin(s, at + 6, b, c + (d + (e + (f + g))));
    AtJoin(s, at + 4, a, b + (c + (d + (e + (f + g)))));
    AtJoin(s, at, [0x50, 0x45, 0, 0], a + (b + (c + (d + (e + (f + g))))));
  }

  lemma HoldsIsLaidOut(boot: seq<byte>, initrd: seq<byte>)
    requires Holds(boot, initrd)
    ensures exists p :: IsUki(boot, U32(boot, 60), p)
  {
    var at := U32(boot, 60);
    LittleOf(boot, 60);
    hide U32, U16, Little, PeBytes;
    var n := SectionCount(boot);
    assert n > 0 && Inside(boot, n - 1);
    PeStands(boot, at);
    assert At(boot, 0, [0x4d, 0x5a]);
    assert IsUki(boot, at, PeOf(boot, at));
  }

  // An object holds an initrd if and only if it is an image of the format, with one section of the name, no longer in memory
  // than in the file and inside it; and the initrd is the bytes there.
  lemma HoldsExactly(boot: seq<byte>, initrd: seq<byte>)
    ensures Holds(boot, initrd) <==> exists at, p, i :: IsUki(boot, at, p) && IsOnlyInitrd(boot, p, i, initrd)
  {
    hide Holds, IsUki, IsOnlyInitrd, U32;
    if Holds(boot, initrd) {
      var at := FoundAt(boot, initrd);
      var p :| IsUki(boot, at, p);
      HoldsOfUki(boot, at, p, initrd);
    }
    if at, p, i :| IsUki(boot, at, p) && IsOnlyInitrd(boot, p, i, initrd) {
      HoldsOfUki(boot, at, p, initrd);
    }
  }

  lemma FoundAt(boot: seq<byte>, initrd: seq<byte>) returns (at: nat)
    requires Holds(boot, initrd)
    ensures exists p :: IsUki(boot, at, p)
  {
    HoldsIsLaidOut(boot, initrd);
    at := U32(boot, 60);
  }
}
