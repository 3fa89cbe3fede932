// Device trees, their flattening by the Devicetree Specification v0.4 (section 5.4), and the scan of one: it finds the
// `data` of /images/ramdisk exactly when the tree holds one, and refuses a tree that holds none or several.
module FlatTree {
  import opened Wrappers
  import opened Bytes
  import opened Offsets
  import opened DeviceTree

  // What lies between the begin and the end of a node, in order. A property's name is given by where it stands in the strings.
  datatype Items =
    | Nil
    | Nop(rest: Items)
    | Prop(at: nat, value: seq<byte>, rest: Items)
    | Child(name: seq<byte>, items: Items, rest: Items)

  function Token(t: nat): (b: seq<byte>)
    ensures |b| == 4
  {
    BigEndian(t, 4)
  }

  function Begin(name: seq<byte>): (b: seq<byte>)
    ensures b != [] && |b| % 4 == 0
  {
    Token(BEGIN_NODE) + (name + [0]) + Padding(|name| + 1)
  }

  function Property(name: nat, value: seq<byte>): (b: seq<byte>)
    ensures b != [] && |b| % 4 == 0
  {
    (Token(PROP) + BigEndian(|value|, 4) + BigEndian(name, 4)) + value + Padding(|value|)
  }

  function Flatten(items: Items): seq<byte> {
    match items
    case Nil => []
    case Nop(rest) => Token(NOP) + Flatten(rest)
    case Prop(name, value, rest) => Property(name, value) + Flatten(rest)
    case Child(name, body, rest) => Begin(name) + (Flatten(body) + (Token(END_NODE) + Flatten(rest)))
  }

  // A structure block: the nameless root and its contents, and the end token.
  function Structure(root: Items): seq<byte> {
    Begin([]) + (Flatten(root) + (Token(END_NODE) + Token(END)))
  }

  predicate PlainName(name: seq<byte>) {
    forall k | 0 <= k < |name| :: name[k] != 0 && name[k] != SLASH
  }

  // What the format can hold: sizes and offsets of 32 bits, names without a NUL or a slash, and names that the strings hold.
  predicate Flattenable(items: Items, strings: seq<byte>) {
    match items
    case Nil => true
    case Nop(rest) => Flattenable(rest, strings)
    case Prop(name, value, rest) =>
      |value| < U32_LIMIT && name < U32_LIMIT && Nul(strings, name).Some? && Flattenable(rest, strings)
    case Child(name, body, rest) => PlainName(name) && Flattenable(body, strings) && Flattenable(rest, strings)
  }

  function NameAt(strings: seq<byte>, at: nat): Option<seq<byte>> {
    match Nul(strings, at)
    case None => None
    case Some(end) => Some(strings[at..end])
  }

  // The values of the properties of the given name in the nodes at the given path, in order.
  function Find(items: Items, strings: seq<byte>, path: seq<seq<byte>>, property: seq<byte>): seq<seq<byte>> {
    match items
    case Nil => []
    case Nop(rest) => Find(rest, strings, path, property)
    case Prop(name, value, rest) =>
      (if path == [] && NameAt(strings, name) == Some(property) then [value] else []) + Find(rest, strings, path, property)
    case Child(name, body, rest) =>
      (if path != [] && name == path[0] then Find(body, strings, path[1..], property) else []) + Find(rest, strings, path, property)
  }

  const RAMDISK_PATH := [Ascii("images"), Ascii("ramdisk")]

  function Ramdisks(root: Items, strings: seq<byte>): seq<seq<byte>> {
    Find(root, strings, RAMDISK_PATH, Ascii("data"))
  }

  /* -------- Names on the stack -------- */

  lemma {:induction false} JoinIsInjective(a: seq<seq<byte>>, b: seq<seq<byte>>)
    requires a != [] && b != [] && Join(a) == Join(b)
    requires forall i | 0 <= i < |a| :: PlainName(a[i])
    requires forall i | 0 <= i < |b| :: PlainName(b[i])
    ensures a == b
  {
    if |a| == 1 && |b| == 1 {
    } else if |a| == 1 {
      OneName(a[0], b);
    } else if |b| == 1 {
      OneName(b[0], a);
    } else {
      var x, y := a[0] + [SLASH] + Join(a[1..]), b[0] + [SLASH] + Join(b[1..]);
      SameHead(a[0], Join(a[1..]), b[0], Join(b[1..]));
      JoinIsInjective(a[1..], b[1..]);
      assert a == [a[0]] + a[1..] && b == [b[0]] + b[1..];
    }
  }

  lemma OneName(name: seq<byte>, more: seq<seq<byte>>)
    requires PlainName(name) && |more| > 1
    ensures Join(more) != name
  {
    hide Join;
    JoinStarts(more);
    var head := more[0] + [SLASH] + Join(more[1..]);
    assert head[|more[0]|] == SLASH;
  }

  lemma JoinStarts(more: seq<seq<byte>>)
    requires |more| > 1
    ensures Join(more) == more[0] + [SLASH] + Join(more[1..])
  {
  }

  lemma SameHead(a: seq<byte>, x: seq<byte>, b: seq<byte>, y: seq<byte>)
    requires PlainName(a) && PlainName(b) && a + [SLASH] + x == b + [SLASH] + y
    ensures a == b && x == y
  {
    var left, right := a + [SLASH] + x, b + [SLASH] + y;
    FirstSlash(a, x);
    FirstSlash(b, y);
    assert a == left[..|a|] && b == right[..|b|];
    assert x == left[|a| + 1..] && y == right[|b| + 1..];
  }

  lemma FirstSlash(a: seq<byte>, x: seq<byte>)
    requires PlainName(a)
    ensures var all := a + [SLASH] + x; all[|a|] == SLASH && forall k | 0 <= k < |a| :: all[k] != SLASH
  {
  }

  // The stack a scan holds inside the root.
  predicate Plain(nodes: seq<seq<byte>>) {
    nodes != [] && nodes[0] == [] && forall i | 0 <= i < |nodes| :: PlainName(nodes[i])
  }

  const TARGET := [[]] + RAMDISK_PATH

  lemma StackIsPath(nodes: seq<seq<byte>>, name: seq<byte>)
    requires Plain(nodes)
    ensures IsInitrd(nodes, name) <==> nodes == TARGET && name == Ascii("data")
  {
    TargetIsPlain();
    if Join(nodes) == Join(TARGET) {
      JoinIsInjective(nodes, TARGET);
    }
  }

  lemma TargetIsPlain()
    ensures Plain(TARGET) && Join(TARGET) == Ascii("/images/ramdisk")
  {
    var a, b := Ascii("images"), Ascii("ramdisk");
    assert TARGET == [[], a, b];
    assert TARGET[1..] == [a, b];
    assert [a, b][1..] == [b];
    assert Join([b]) == b;
    assert Join([a, b]) == a + [SLASH] + b;
    assert Join(TARGET) == [] + [SLASH] + (a + [SLASH] + b);
    assert Ascii("/images/ramdisk") == [SLASH] + a + [SLASH] + b;
  }

  /* -------- What the scan picks up -------- */

  function Picked(items: Items, strings: seq<byte>, nodes: seq<seq<byte>>): seq<seq<byte>> {
    match items
    case Nil => []
    case Nop(rest) => Picked(rest, strings, nodes)
    case Prop(name, value, rest) =>
      (if nodes == TARGET && NameAt(strings, name) == Some(Ascii("data")) then [value] else []) + Picked(rest, strings, nodes)
    case Child(name, body, rest) => Picked(body, strings, nodes + [name]) + Picked(rest, strings, nodes)
  }

  // Under a stack that cannot lead to the path nothing is picked.
  predicate Leads(nodes: seq<seq<byte>>) {
    |nodes| <= |TARGET| && nodes == TARGET[..|nodes|]
  }

  function Sought(items: Items, strings: seq<byte>, nodes: seq<seq<byte>>): seq<seq<byte>> {
    if Leads(nodes) then Find(items, strings, TARGET[|nodes|..], Ascii("data")) else []
  }

  lemma {:induction false} PickedIsFound(items: Items, strings: seq<byte>, nodes: seq<seq<byte>>)
    ensures Picked(items, strings, nodes) == Sought(items, strings, nodes)
    decreases items
  {
    match items
    case Nil =>
    case Nop(rest) => PickedIsFound(rest, strings, nodes);
    case Prop(name, value, rest) =>
      hide *;
      PickedIsFound(rest, strings, nodes);
      PropertyPicks(name, value, rest, strings, nodes);
    case Child(name, body, rest) =>
      hide *;
      PickedIsFound(rest, strings, nodes);
      PickedIsFound(body, strings, nodes + [name]);
      ChildPicks(name, body, rest, strings, nodes);
  }

  lemma PropertyPicks(name: nat, value: seq<byte>, rest: Items, strings: seq<byte>, nodes: seq<seq<byte>>)
    requires Picked(rest, strings, nodes) == Sought(rest, strings, nodes)
    ensures Picked(Prop(name, value, rest), strings, nodes) == Sought(Prop(name, value, rest), strings, nodes)
  {
    hide Ascii, NameAt, TARGET;
    assert nodes == TARGET ==> Leads(nodes) && TARGET[|nodes|..] == [];
    assert Leads(nodes) && TARGET[|nodes|..] == [] ==> nodes == TARGET;
  }

  lemma ChildPicks(name: seq<byte>, body: Items, rest: Items, strings: seq<byte>, nodes: seq<seq<byte>>)
    requires Picked(rest, strings, nodes) == Sought(rest, strings, nodes)
    requires Picked(body, strings, nodes + [name]) == Sought(body, strings, nodes + [name])
    ensures Picked(Child(name, body, rest), strings, nodes) == Sought(Child(name, body, rest), strings, nodes)
  {
    hide Ascii, NameAt, TARGET;
    LeadsInto(nodes, name);
  }

  lemma LeadsInto(nodes: seq<seq<byte>>, name: seq<byte>)
    ensures Leads(nodes + [name]) <==> Leads(nodes) && |nodes| < |TARGET| && name == TARGET[|nodes|]
    ensures Leads(nodes) && |nodes| < |TARGET| ==> TARGET[|nodes|..] != [] && TARGET[|nodes|..][0] == TARGET[|nodes|] && TARGET[|nodes|..][1..] == TARGET[|nodes| + 1..]
  {
    hide RAMDISK_PATH;
    var all := nodes + [name];
    assert all[..|nodes|] == nodes;
    if Leads(all) {
      assert all[|nodes|] == name;
      assert TARGET[..|all|][..|nodes|] == TARGET[..|nodes|];
    } else if Leads(nodes) && |nodes| < |TARGET| {
      assert TARGET[..|nodes| + 1] == TARGET[..|nodes|] + [TARGET[|nodes|]];
    }
  }

  // One initrd kept, a second refused.
  function Keep(initrd: Option<seq<byte>>, values: seq<seq<byte>>): Option<Option<seq<byte>>>
    decreases |values|
  {
    if values == [] then Some(initrd) else if initrd.Some? then None else Keep(Some(values[0]), values[1..])
  }

  lemma {:induction false} KeepConcat(initrd: Option<seq<byte>>, a: seq<seq<byte>>, b: seq<seq<byte>>)
    ensures Keep(initrd, a + b) == match Keep(initrd, a) case None => None case Some(i) => Keep(i, b)
    decreases |a|
  {
    if a == [] {
      assert [] + b == b;
    } else if initrd.None? {
      KeepConcat(Some(a[0]), a[1..], b);
      assert (a + b)[1..] == a[1..] + b;
    }
  }

  /* -------- The scan over a flattening -------- */

  lemma ReadsToken(s: seq<byte>, at: nat, n: nat)
    requires n < U32_LIMIT && At(s, at, BigEndian(n, 4))
    ensures U32(s, at) == n
  {
    FixedWidths();
    BigEndianRoundTrip(n, 4);
  }

  // The offset from which on the 32-bit mask yields a negative number.
  const OFFSET_LIMIT := 0x8000_0000

  // Every begin and every property of the items from an offset on ends below that limit. The offsets after other tokens
  // are not masked.
  predicate Fits(items: Items, at: nat) {
    match items
    case Nil => true
    case Nop(rest) => Fits(rest, at + 4)
    case Prop(name, value, rest) => at + |Property(name, value)| < OFFSET_LIMIT && Fits(rest, at + |Property(name, value)|)
    case Child(name, body, rest) =>
      && at + |Begin(name)| < OFFSET_LIMIT && Fits(body, at + |Begin(name)|)
      && Fits(rest, at + |Begin(name)| + |Flatten(body)| + 4)
  }

  lemma StepToken(structure: seq<byte>, strings: seq<byte>, s: State, t: nat)
    requires s.offset >= 0 && t < U32_LIMIT && At(structure, s.offset, Token(t))
    ensures t == NOP ==> Step(structure, strings, s) == Go(s.(offset := s.offset + 4))
    ensures t == END ==> Step(structure, strings, s) == Stop
    ensures t == END_NODE && s.nodes != [] ==>
      Step(structure, strings, s) == Go(s.(nodes := s.nodes[..|s.nodes| - 1], offset := s.offset + 4))
  {
    ReadsToken(structure, s.offset, t);
  }

  lemma BeginHolds(structure: seq<byte>, at: nat, name: seq<byte>)
    requires PlainName(name) && At(structure, at, Begin(name))
    ensures at + 4 + |name| < |structure| && U32(structure, at) == BEGIN_NODE
    ensures Nul(structure, at + 4) == Some(at + 4 + |name|) && structure[at + 4..at + 4 + |name|] == name
  {
    hide U32, At, Nul;
    AtConcat(structure, at, Token(BEGIN_NODE) + (name + [0]), Padding(|name| + 1));
    AtConcat(structure, at, Token(BEGIN_NODE), name + [0]);
    BlockHolds(structure, at, Token(BEGIN_NODE));
    ReadsToken(structure, at, BEGIN_NODE);
    NulAfter(structure, at + 4, name);
  }

  lemma BeginEnds(at: nat, name: seq<byte>)
    requires at % 4 == 0 && at + |Begin(name)| < STRUCTURE_LIMIT
    ensures at + |Begin(name)| < OFFSET_LIMIT ==> Masked(at + 4 + |name| + 4) == at + |Begin(name)|
    ensures at + |Begin(name)| >= OFFSET_LIMIT ==> Masked(at + 4 + |name| + 4) < 0
  {
    hide Masked, Token;
    var x, y := at + 4 + |name| + 1, at + |Begin(name)|;
    assert y == x + |Padding(|name| + 1)|;
    hide *;
    MaskedEnd(x, y);
  }

  lemma MaskedEnd(x: nat, y: nat)
    requires y % 4 == 0 && x <= y < x + 4 && y < STRUCTURE_LIMIT
    ensures y < OFFSET_LIMIT ==> Masked(x + 3) == y
    ensures y >= OFFSET_LIMIT ==> Masked(x + 3) < 0
  {
    assert OFFSET_LIMIT == U32_LIMIT / 2;
    assert (x + 3) - (x + 3) % 4 == y;
    assert (x + 3) % U32_LIMIT == x + 3;
  }

  lemma StepBegin(structure: seq<byte>, strings: seq<byte>, s: State, name: seq<byte>)
    requires s.offset >= 0 && s.offset % 4 == 0 && s.offset + |Begin(name)| < OFFSET_LIMIT
    requires PlainName(name) && At(structure, s.offset, Begin(name))
    ensures Step(structure, strings, s) == Go(s.(nodes := s.nodes + [name], offset := s.offset + |Begin(name)|))
  {
    hide U32, Nul, Begin, Masked, PlainName;
    BeginHolds(structure, s.offset, name);
    BeginEnds(s.offset, name);
    hide At;
  }

  lemma NulAfter(s: seq<byte>, from: nat, name: seq<byte>)
    requires PlainName(name) && At(s, from, name + [0])
    ensures from + |name| < |s| && Nul(s, from) == Some(from + |name|) && s[from..from + |name|] == name
  {
    var text := name + [0];
    forall k | from <= k < from + |text| ensures s[k] == text[k - from] {
      assert s[from..from + |text|][k - from] == s[k];
    }
    assert text[|name|] == 0 && forall k | 0 <= k < |name| :: text[k] == name[k];
    assert s[from + |name|] == 0;
  }

  function AfterProperty(strings: seq<byte>, s: State, name: nat, value: seq<byte>): Outcome {
    var next := s.(offset := s.offset + |Property(name, value)|);
    if s.nodes != TARGET || NameAt(strings, name) != Some(Ascii("data")) then Go(next)
    else if s.initrd.Some? then Fail(Duplicate) else Go(next.(initrd := Some(value)))
  }

  lemma PropertyHolds(structure: seq<byte>, at: nat, name: nat, value: seq<byte>)
    requires |value| < U32_LIMIT && name < U32_LIMIT && At(structure, at, Property(name, value))
    ensures at + 12 + |value| <= |structure| && structure[at + 12..at + 12 + |value|] == value
    ensures U32(structure, at) == PROP && U32(structure, at + 4) == |value| && U32(structure, at + 8) == name
  {
    hide U32;
    var head := Token(PROP) + BigEndian(|value|, 4) + BigEndian(name, 4);
    AtConcat(structure, at, head + value, Padding(|value|));
    AtConcat(structure, at, head, value);
    AtConcat(structure, at, Token(PROP) + BigEndian(|value|, 4), BigEndian(name, 4));
    AtConcat(structure, at, Token(PROP), BigEndian(|value|, 4));
    ReadsToken(structure, at, PROP);
    ReadsToken(structure, at + 4, |value|);
    ReadsToken(structure, at + 8, name);
  }

  lemma PropertyEnds(at: nat, name: nat, value: seq<byte>)
    requires at % 4 == 0 && at + |Property(name, value)| < STRUCTURE_LIMIT
    ensures at + |Property(name, value)| < OFFSET_LIMIT ==> Masked(at + 12 + |value| + 3) == at + |Property(name, value)|
    ensures at + |Property(name, value)| >= OFFSET_LIMIT ==> Masked(at + 12 + |value| + 3) < 0
  {
    hide Masked, Token, BigEndian;
    var x, y := at + 12 + |value|, at + |Property(name, value)|;
    assert y == x + |Padding(|value|)|;
    hide *;
    MaskedEnd(x, y);
  }

  lemma StepProperty(structure: seq<byte>, strings: seq<byte>, s: State, name: nat, value: seq<byte>)
    requires s.offset >= 0 && s.offset % 4 == 0 && s.offset + |Property(name, value)| < OFFSET_LIMIT
    requires |value| < U32_LIMIT && name < U32_LIMIT && Nul(strings, name).Some? && Plain(s.nodes)
    requires At(structure, s.offset, Property(name, value))
    ensures Step(structure, strings, s) == AfterProperty(strings, s, name, value)
  {
    hide U32, IsInitrd, Plain, TARGET, Property, Masked, Nul;
    PropertyHolds(structure, s.offset, name, value);
    PropertyEnds(s.offset, name, value);
    StackIsPath(s.nodes, strings[name..Nul(strings, name).value]);
    hide At;
  }

  lemma {:induction false} FlattenIsAligned(items: Items)
    ensures |Flatten(items)| % 4 == 0
  {
    hide Begin, Property, Token;
    match items
    case Nil =>
    case Nop(rest) => FlattenIsAligned(rest);
    case Prop(name, value, rest) => FlattenIsAligned(rest);
    case Child(name, body, rest) =>
      FlattenIsAligned(body);
      FlattenIsAligned(rest);
      var b, f, r := Begin(name), Flatten(body), Flatten(rest);
      hide *;
      Fours(|b|, |f|, |r|);
  }

  lemma Fours(a: nat, b: nat, c: nat)
    requires a % 4 == 0 && b % 4 == 0 && c % 4 == 0
    ensures (a + (b + (4 + c))) % 4 == 0
  {
  }

  // What the scan is worth after the items at its offset.
  function After(structure: seq<byte>, strings: seq<byte>, items: Items, s: State): Result<Option<seq<byte>>, Error>
    requires |structure| < STRUCTURE_LIMIT
  {
    match Keep(s.initrd, Picked(items, strings, s.nodes))
    case None => Err(Duplicate)
    case Some(i) => ScanFrom(structure, strings, s.(offset := s.offset + |Flatten(items)|, initrd := i))
  }

  function Onward(structure: seq<byte>, strings: seq<byte>, initrd: Option<seq<byte>>, o: Outcome): Result<Option<seq<byte>>, Error>
    requires |structure| < STRUCTURE_LIMIT
  {
    match o
    case Stop => Ok(initrd)
    case Fail(e) => Err(e)
    case Go(next) => ScanFrom(structure, strings, next)
  }

  lemma StepsOn(structure: seq<byte>, strings: seq<byte>, s: State)
    requires |structure| < STRUCTURE_LIMIT && 0 <= s.offset < |structure|
    requires Step(structure, strings, s).Go? ==> Step(structure, strings, s).state.offset >= 0
    ensures ScanFrom(structure, strings, s)
         == Onward(structure, strings, s.initrd, Step(structure, strings, s))
  {
    hide Step;
  }

  lemma {:induction false} ScanItems(structure: seq<byte>, strings: seq<byte>, items: Items, s: State)
    requires |structure| < STRUCTURE_LIMIT && s.offset >= 0 && s.offset % 4 == 0 && Fits(items, s.offset)
    requires Flattenable(items, strings) && Plain(s.nodes) && At(structure, s.offset, Flatten(items))
    ensures ScanFrom(structure, strings, s) == After(structure, strings, items, s)
    decreases items
  {
    hide ScanFrom, Step, Plain, At, Property, Begin, Nul;
    match items
    case Nil =>
    case Nop(rest) =>
      AtConcat(structure, s.offset, Token(NOP), Flatten(rest));
      StepToken(structure, strings, s, NOP);
      BlockHolds(structure, s.offset, Token(NOP));
      StepsOn(structure, strings, s);
      ScanItems(structure, strings, rest, s.(offset := s.offset + 4));
    case Prop(name, value, rest) => ScanProperty(structure, strings, name, value, rest, s);
    case Child(name, body, rest) => ScanChild(structure, strings, name, body, rest, s);
  }

  lemma AfterTheProperty(structure: seq<byte>, strings: seq<byte>, name: nat, value: seq<byte>, rest: Items, s: State)
    requires |structure| < STRUCTURE_LIMIT
    ensures After(structure, strings, Prop(name, value, rest), s)
         == match AfterProperty(strings, s, name, value)
            case Fail(e) => Err(e)
            case Go(n) => After(structure, strings, rest, n)
            case Stop => Ok(None)
  {
    hide ScanFrom, Property, TARGET, NameAt, Ascii;
    var more := Picked(rest, strings, s.nodes);
    assert [] + more == more && ([value] + more)[1..] == more;
  }

  lemma ScanProperty(structure: seq<byte>, strings: seq<byte>, name: nat, value: seq<byte>, rest: Items, s: State)
    requires |structure| < STRUCTURE_LIMIT && s.offset >= 0 && s.offset % 4 == 0 && Fits(Prop(name, value, rest), s.offset)
    requires Flattenable(Prop(name, value, rest), strings) && Plain(s.nodes) && At(structure, s.offset, Flatten(Prop(name, value, rest)))
    ensures ScanFrom(structure, strings, s) == After(structure, strings, Prop(name, value, rest), s)
    decreases Prop(name, value, rest), 0
  {
    hide *;
    PropertyParts(strings, name, value, rest);
    PropertyFits(s.offset, name, value, rest);
    AfterTheProperty(structure, strings, name, value, rest, s);
    EntersProperty(structure, strings, name, value, rest, s);
    AfterPropertyStands(strings, name, value, s);
    if AfterProperty(strings, s, name, value).Go? {
      ScanItems(structure, strings, rest, AfterProperty(strings, s, name, value).state);
    }
  }

  lemma PropertyParts(strings: seq<byte>, name: nat, value: seq<byte>, rest: Items)
    requires Flattenable(Prop(name, value, rest), strings)
    ensures |value| < U32_LIMIT && name < U32_LIMIT && Nul(strings, name).Some? && Flattenable(rest, strings)
  {
  }

  lemma PropertyFits(at: nat, name: nat, value: seq<byte>, rest: Items)
    ensures Fits(Prop(name, value, rest), at) <==> at + |Property(name, value)| < OFFSET_LIMIT && Fits(rest, at + |Property(name, value)|)
  {
  }

  lemma ChildFits(at: nat, name: seq<byte>, body: Items, rest: Items)
    ensures Fits(Child(name, body, rest), at)
       <==> && at + |Begin(name)| < OFFSET_LIMIT && Fits(body, at + |Begin(name)|)
            && Fits(rest, at + |Begin(name)| + |Flatten(body)| + 4)
  {
    hide Begin, Flatten;
  }

  lemma AfterPropertyStands(strings: seq<byte>, name: nat, value: seq<byte>, s: State)
    ensures var o := AfterProperty(strings, s, name, value);
      !o.Stop? && (o.Go? ==> o.state.offset == s.offset + |Property(name, value)| && o.state.nodes == s.nodes)
  {
    hide Ascii, Property, NameAt, TARGET;
  }

  lemma EntersProperty(structure: seq<byte>, strings: seq<byte>, name: nat, value: seq<byte>, rest: Items, s: State)
    requires |structure| < STRUCTURE_LIMIT && s.offset >= 0 && s.offset % 4 == 0 && s.offset + |Property(name, value)| < OFFSET_LIMIT
    requires |value| < U32_LIMIT && name < U32_LIMIT && Nul(strings, name).Some? && Plain(s.nodes)
    requires At(structure, s.offset, Flatten(Prop(name, value, rest)))
    ensures AfterProperty(strings, s, name, value).Fail? ==>
      ScanFrom(structure, strings, s) == Err(AfterProperty(strings, s, name, value).error)
    ensures AfterProperty(strings, s, name, value).Go? ==>
      ScanFrom(structure, strings, s) == ScanFrom(structure, strings, AfterProperty(strings, s, name, value).state)
    ensures At(structure, s.offset + |Property(name, value)|, Flatten(rest))
  {
    hide Ascii, BigEndian, ScanFrom, Step, Plain, At, Nul, TARGET, Property, NameAt, AfterProperty;
    AtConcat(structure, s.offset, Property(name, value), Flatten(rest));
    StepProperty(structure, strings, s, name, value);
    BlockHolds(structure, s.offset, Property(name, value));
    AfterPropertyStands(strings, name, value, s);
    StepsOn(structure, strings, s);
  }

  // Inside a child's begin and end, and past them.
  function Inside(s: State, name: seq<byte>): State {
    s.(nodes := s.nodes + [name], offset := s.offset + |Begin(name)|)
  }

  function Past(s: State, name: seq<byte>, body: Items, initrd: Option<seq<byte>>): State {
    s.(offset := s.offset + |Begin(name)| + |Flatten(body)| + 4, initrd := initrd)
  }

  lemma AfterTheChild(structure: seq<byte>, strings: seq<byte>, name: seq<byte>, body: Items, rest: Items, s: State)
    requires |structure| < STRUCTURE_LIMIT
    ensures After(structure, strings, Child(name, body, rest), s)
         == match Keep(s.initrd, Picked(body, strings, s.nodes + [name]))
            case None => Err(Duplicate)
            case Some(i) => After(structure, strings, rest, Past(s, name, body, i))
  {
    hide ScanFrom, Begin;
    KeepConcat(s.initrd, Picked(body, strings, s.nodes + [name]), Picked(rest, strings, s.nodes));
  }

  lemma ScanChild(structure: seq<byte>, strings: seq<byte>, name: seq<byte>, body: Items, rest: Items, s: State)
    requires |structure| < STRUCTURE_LIMIT && s.offset >= 0 && s.offset % 4 == 0 && Fits(Child(name, body, rest), s.offset)
    requires Flattenable(Child(name, body, rest), strings) && Plain(s.nodes) && At(structure, s.offset, Flatten(Child(name, body, rest)))
    ensures ScanFrom(structure, strings, s) == After(structure, strings, Child(name, body, rest), s)
    decreases Child(name, body, rest), 0
  {
    hide *;
    ChildParts(strings, name, body, rest);
    ChildFits(s.offset, name, body, rest);
    StatesAt(s, name, body);
    EntersChild(structure, strings, name, body, rest, s);
    AfterTheChild(structure, strings, name, body, rest, s);
    var kept := Keep(s.initrd, Picked(body, strings, s.nodes + [name]));
    ScanItems(structure, strings, body, Inside(s, name));
    AfterTheBody(structure, strings, name, body, s);
    if kept.Some? {
      LeavesChild(structure, strings, name, body, rest, s, kept.value);
      ScanItems(structure, strings, rest, Past(s, name, body, kept.value));
    }
  }

  lemma StatesAt(s: State, name: seq<byte>, body: Items)
    ensures Inside(s, name).offset == s.offset + |Begin(name)|
    ensures forall i :: Past(s, name, body, i).offset == s.offset + |Begin(name)| + |Flatten(body)| + 4
  {
    hide Begin, Flatten;
  }

  lemma ChildParts(strings: seq<byte>, name: seq<byte>, body: Items, rest: Items)
    requires Flattenable(Child(name, body, rest), strings)
    ensures PlainName(name) && Flattenable(body, strings) && Flattenable(rest, strings)
  {
  }

  lemma AfterTheBody(structure: seq<byte>, strings: seq<byte>, name: seq<byte>, body: Items, s: State)
    requires |structure| < STRUCTURE_LIMIT
    ensures After(structure, strings, body, Inside(s, name))
         == match Keep(s.initrd, Picked(body, strings, s.nodes + [name]))
            case None => Err(Duplicate)
            case Some(i) => ScanFrom(structure, strings, Ending(s, name, body, i))
  {
    hide ScanFrom, Picked, Keep, Begin, Flatten;
  }

  // At a child's end.
  function Ending(s: State, name: seq<byte>, body: Items, initrd: Option<seq<byte>>): State {
    Inside(s, name).(offset := s.offset + |Begin(name)| + |Flatten(body)|, initrd := initrd)
  }

  lemma LeavesChild(structure: seq<byte>, strings: seq<byte>, name: seq<byte>, body: Items, rest: Items, s: State, i: Option<seq<byte>>)
    requires |structure| < STRUCTURE_LIMIT && s.offset >= 0 && s.offset % 4 == 0
    requires At(structure, s.offset + |Begin(name)| + |Flatten(body)|, Token(END_NODE) + Flatten(rest))
    ensures ScanFrom(structure, strings, Ending(s, name, body, i)) == ScanFrom(structure, strings, Past(s, name, body, i))
    ensures Past(s, name, body, i).offset >= 0 && Past(s, name, body, i).offset % 4 == 0 && Past(s, name, body, i).nodes == s.nodes
    ensures At(structure, Past(s, name, body, i).offset, Flatten(rest))
  {
    hide ScanFrom, Step, At, Begin, Flatten, Token;
    var end := Ending(s, name, body, i);
    FlattenIsAligned(body);
    AtConcat(structure, end.offset, Token(END_NODE), Flatten(rest));
    StepToken(structure, strings, end, END_NODE);
    BlockHolds(structure, end.offset, Token(END_NODE));
    StepsOn(structure, strings, end);
    assert end.nodes[..|end.nodes| - 1] == s.nodes;
  }

  lemma PlainPush(nodes: seq<seq<byte>>, name: seq<byte>)
    requires Plain(nodes) && PlainName(name)
    ensures Plain(nodes + [name])
  {
  }

  lemma EntersChild(structure: seq<byte>, strings: seq<byte>, name: seq<byte>, body: Items, rest: Items, s: State)
    requires |structure| < STRUCTURE_LIMIT && s.offset >= 0 && s.offset % 4 == 0 && s.offset + |Begin(name)| < OFFSET_LIMIT
    requires PlainName(name) && Plain(s.nodes) && At(structure, s.offset, Flatten(Child(name, body, rest)))
    ensures ScanFrom(structure, strings, s) == ScanFrom(structure, strings, Inside(s, name))
    ensures Plain(Inside(s, name).nodes) && Inside(s, name).offset >= 0 && Inside(s, name).offset % 4 == 0
    ensures At(structure, Inside(s, name).offset, Flatten(body))
    ensures At(structure, s.offset + |Begin(name)| + |Flatten(body)|, Token(END_NODE) + Flatten(rest))
  {
    hide ScanFrom, Step, At, Nul, Begin, Token, PlainName;
    PlainPush(s.nodes, name);
    hide Plain;
    var tail := Token(END_NODE) + Flatten(rest);
    AtConcat(structure, s.offset, Begin(name), Flatten(body) + tail);
    AtConcat(structure, s.offset + |Begin(name)|, Flatten(body), tail);
    StepBegin(structure, strings, s, name);
    BlockHolds(structure, s.offset, Begin(name));
    StepsOn(structure, strings, s);
  }

  // None, one, or several.
  function Verdict(values: seq<seq<byte>>): Result<Option<seq<byte>>, Error> {
    if values == [] then Ok(None) else if |values| == 1 then Ok(Some(values[0])) else Err(Duplicate)
  }

  // The scan of a flattened tree, whatever bytes follow its end token: lookup, where every begin and property ends below
  // the offset limit, and a refusal of every other tree.
  lemma ScanIsLookup(root: Items, strings: seq<byte>, junk: seq<byte>)
    requires Flattenable(root, strings) && |Structure(root) + junk| < STRUCTURE_LIMIT
    ensures Fits(root, |Begin([])|) ==> ScanFrom(Structure(root) + junk, strings, START) == Verdict(Ramdisks(root, strings))
    ensures !Fits(root, |Begin([])|) ==> ScanFrom(Structure(root) + junk, strings, START).Err?
  {
    var structure := Structure(root) + junk;
    var inside := State(|Begin([])|, [[]], None);
    assert inside.offset >= 0 && inside.offset % 4 == 0;
    hide *;
    EntersRoot(root, strings, junk);
    if Fits(root, |Begin([])|) {
      ScanItems(structure, strings, root, inside);
      RootEnds(structure, strings, root);
    } else {
      ScanOverflows(structure, strings, root, inside);
    }
  }

  // So every tree is refused that has a property of 2 GiB, less 20 bytes, before all it holds.
  lemma LargeTreeIsRefused(name: nat, value: seq<byte>, rest: Items, strings: seq<byte>, junk: seq<byte>)
    requires Flattenable(Prop(name, value, rest), strings) && |Structure(Prop(name, value, rest)) + junk| < STRUCTURE_LIMIT
    requires |value| >= OFFSET_LIMIT - 20
    ensures ScanFrom(Structure(Prop(name, value, rest)) + junk, strings, START).Err?
    ensures Ramdisks(Prop(name, value, rest), strings) == Ramdisks(rest, strings)
  {
    hide ScanFrom, Structure, Ramdisks, Flattenable, Fits, Begin, Property;
    RootBegins();
    PropertyIsLong(name, value);
    PropertyFits(|Begin([])|, name, value, rest);
    NotAtTheRoot(name, value, rest, strings);
    ScanIsLookup(Prop(name, value, rest), strings, junk);
  }

  lemma RootBegins()
    ensures |Begin([])| == 8
  {
    hide Token;
  }

  lemma PropertyIsLong(name: nat, value: seq<byte>)
    ensures |Property(name, value)| >= 12 + |value|
  {
    hide Token, BigEndian;
  }

  // A property of the root is none of /images/ramdisk.
  lemma NotAtTheRoot(name: nat, value: seq<byte>, rest: Items, strings: seq<byte>)
    ensures Ramdisks(Prop(name, value, rest), strings) == Ramdisks(rest, strings)
  {
    hide Ascii;
    assert RAMDISK_PATH != [];
    assert [] + Ramdisks(rest, strings) == Ramdisks(rest, strings);
  }

  lemma StepsOff(structure: seq<byte>, strings: seq<byte>, s: State)
    requires |structure| < STRUCTURE_LIMIT && 0 <= s.offset < |structure|
    requires var o := Step(structure, strings, s); o.Fail? || (o.Go? && o.state.offset < 0)
    ensures ScanFrom(structure, strings, s).Err?
  {
    hide Step;
  }

  lemma BeginOverflows(structure: seq<byte>, strings: seq<byte>, s: State, name: seq<byte>)
    requires |structure| < STRUCTURE_LIMIT && s.offset >= 0 && s.offset % 4 == 0
    requires PlainName(name) && At(structure, s.offset, Begin(name)) && s.offset + |Begin(name)| >= OFFSET_LIMIT
    ensures ScanFrom(structure, strings, s).Err?
  {
    hide U32, Nul, Begin, Masked, PlainName, ScanFrom;
    BeginHolds(structure, s.offset, name);
    AtEnds(structure, s.offset, Begin(name));
    BeginEnds(s.offset, name);
    hide At;
    StepsOff(structure, strings, s);
  }

  lemma AtEnds(s: seq<byte>, at: nat, b: seq<byte>)
    requires At(s, at, b)
    ensures at + |b| <= |s|
  {
  }

  lemma PropertyOverflows(structure: seq<byte>, strings: seq<byte>, s: State, name: nat, value: seq<byte>)
    requires |structure| < STRUCTURE_LIMIT && s.offset >= 0 && s.offset % 4 == 0
    requires |value| < U32_LIMIT && name < U32_LIMIT && Nul(strings, name).Some?
    requires At(structure, s.offset, Property(name, value)) && s.offset + |Property(name, value)| >= OFFSET_LIMIT
    ensures ScanFrom(structure, strings, s).Err?
  {
    hide U32, Nul, Property, Masked, IsInitrd, ScanFrom;
    PropertyHolds(structure, s.offset, name, value);
    AtEnds(structure, s.offset, Property(name, value));
    PropertyEnds(s.offset, name, value);
    hide At;
    StepsOff(structure, strings, s);
  }

  // A scan that meets a begin or a property that ends at or above the limit never succeeds.
  lemma {:induction false} ScanOverflows(structure: seq<byte>, strings: seq<byte>, items: Items, s: State)
    requires |structure| < STRUCTURE_LIMIT && s.offset >= 0 && s.offset % 4 == 0 && !Fits(items, s.offset)
    requires Flattenable(items, strings) && Plain(s.nodes) && At(structure, s.offset, Flatten(items))
    ensures ScanFrom(structure, strings, s).Err?
    decreases items
  {
    hide ScanFrom, Step, Plain, At, Property, Begin, Nul;
    match items
    case Nop(rest) =>
      AtConcat(structure, s.offset, Token(NOP), Flatten(rest));
      StepToken(structure, strings, s, NOP);
      BlockHolds(structure, s.offset, Token(NOP));
      StepsOn(structure, strings, s);
      ScanOverflows(structure, strings, rest, s.(offset := s.offset + 4));
    case Prop(name, value, rest) => PropertyOrRest(structure, strings, name, value, rest, s);
    case Child(name, body, rest) => ChildOrRest(structure, strings, name, body, rest, s);
  }

  lemma PropertyOrRest(structure: seq<byte>, strings: seq<byte>, name: nat, value: seq<byte>, rest: Items, s: State)
    requires |structure| < STRUCTURE_LIMIT && s.offset >= 0 && s.offset % 4 == 0 && !Fits(Prop(name, value, rest), s.offset)
    requires Flattenable(Prop(name, value, rest), strings) && Plain(s.nodes) && At(structure, s.offset, Flatten(Prop(name, value, rest)))
    ensures ScanFrom(structure, strings, s).Err?
    decreases Prop(name, value, rest), 0
  {
    hide *;
    PropertyParts(strings, name, value, rest);
    PropertyFits(s.offset, name, value, rest);
    if s.offset + |Property(name, value)| < OFFSET_LIMIT {
      EntersProperty(structure, strings, name, value, rest, s);
      AfterPropertyStands(strings, name, value, s);
      if AfterProperty(strings, s, name, value).Go? {
        ScanOverflows(structure, strings, rest, AfterProperty(strings, s, name, value).state);
      }
    } else {
      FlattenHead(structure, s.offset, name, value, rest);
      PropertyOverflows(structure, strings, s, name, value);
    }
  }

  lemma FlattenHead(structure: seq<byte>, at: nat, name: nat, value: seq<byte>, rest: Items)
    requires At(structure, at, Flatten(Prop(name, value, rest)))
    ensures At(structure, at, Property(name, value))
  {
    hide At, Property;
    AtConcat(structure, at, Property(name, value), Flatten(rest));
  }

  lemma ChildHead(structure: seq<byte>, at: nat, name: seq<byte>, body: Items, rest: Items)
    requires At(structure, at, Flatten(Child(name, body, rest)))
    ensures At(structure, at, Begin(name))
  {
    hide At, Begin, Token;
    AtConcat(structure, at, Begin(name), Flatten(body) + (Token(END_NODE) + Flatten(rest)));
  }

  lemma ChildOrRest(structure: seq<byte>, strings: seq<byte>, name: seq<byte>, body: Items, rest: Items, s: State)
    requires |structure| < STRUCTURE_LIMIT && s.offset >= 0 && s.offset % 4 == 0 && !Fits(Child(name, body, rest), s.offset)
    requires Flattenable(Child(name, body, rest), strings) && Plain(s.nodes) && At(structure, s.offset, Flatten(Child(name, body, rest)))
    ensures ScanFrom(structure, strings, s).Err?
    decreases Child(name, body, rest), 0
  {
    hide *;
    ChildParts(strings, name, body, rest);
    ChildFits(s.offset, name, body, rest);
    StatesAt(s, name, body);
    if s.offset + |Begin(name)| >= OFFSET_LIMIT {
      ChildHead(structure, s.offset, name, body, rest);
      BeginOverflows(structure, strings, s, name);
    } else {
      EntersChild(structure, strings, name, body, rest, s);
      if !Fits(body, s.offset + |Begin(name)|) {
        ScanOverflows(structure, strings, body, Inside(s, name));
      } else {
        ScanItems(structure, strings, body, Inside(s, name));
        AfterTheBody(structure, strings, name, body, s);
        var kept := Keep(s.initrd, Picked(body, strings, s.nodes + [name]));
        if kept.Some? {
          LeavesChild(structure, strings, name, body, rest, s, kept.value);
          ScanOverflows(structure, strings, rest, Past(s, name, body, kept.value));
        }
      }
    }
  }

  lemma RootEnds(structure: seq<byte>, strings: seq<byte>, root: Items)
    requires |structure| < STRUCTURE_LIMIT && At(structure, |Begin([])| + |Flatten(root)|, Token(END_NODE) + Token(END))
    ensures After(structure, strings, root, State(|Begin([])|, [[]], None)) == Verdict(Ramdisks(root, strings))
  {
    hide ScanFrom, At, Begin, Picked, Ramdisks, Flatten, Token;
    RootPicks(root, strings);
    KeepIs(Ramdisks(root, strings));
    match Keep(None, Ramdisks(root, strings))
    case None =>
    case Some(i) => ScanEnds(structure, strings, |Begin([])| + |Flatten(root)|, i);
  }

  lemma EntersRoot(root: Items, strings: seq<byte>, junk: seq<byte>)
    requires |Structure(root) + junk| < STRUCTURE_LIMIT
    ensures var structure := Structure(root) + junk;
      && ScanFrom(structure, strings, START) == ScanFrom(structure, strings, State(|Begin([])|, [[]], None))
      && Plain([[]]) && At(structure, |Begin([])|, Flatten(root))
      && At(structure, |Begin([])| + |Flatten(root)|, Token(END_NODE) + Token(END))
  {
    hide ScanFrom, Step, At, Nul, Begin, Flatten;
    var structure := Structure(root) + junk;
    var tail := Token(END_NODE) + Token(END);
    AtPrefix(Structure(root), junk);
    AtConcat(structure, 0, Begin([]), Flatten(root) + tail);
    AtConcat(structure, |Begin([])|, Flatten(root), tail);
    RootBegins();
    StepBegin(structure, strings, START, []);
    BlockHolds(structure, 0, Begin([]));
    StepsOn(structure, strings, START);
    assert START.nodes + [[]] == [[]];
  }

  lemma RootPicks(root: Items, strings: seq<byte>)
    ensures Picked(root, strings, [[]]) == Ramdisks(root, strings)
  {
    PickedIsFound(root, strings, [[]]);
    hide Ascii, Picked, Find;
    assert TARGET[1..] == RAMDISK_PATH;
    assert TARGET[..1] == [[]];
  }

  lemma ScanEnds(structure: seq<byte>, strings: seq<byte>, at: nat, i: Option<seq<byte>>)
    requires |structure| < STRUCTURE_LIMIT && At(structure, at, Token(END_NODE) + Token(END))
    ensures ScanFrom(structure, strings, State(at, [[]], i)) == Ok(i)
  {
    hide ScanFrom, Step, At;
    var end, last := State(at, [[]], i), State(at + 4, [], i);
    AtConcat(structure, at, Token(END_NODE), Token(END));
    StepToken(structure, strings, end, END_NODE);
    BlockHolds(structure, at, Token(END_NODE));
    StepsOn(structure, strings, end);
    assert end.nodes[..0] == [];
    StepToken(structure, strings, last, END);
    BlockHolds(structure, last.offset, Token(END));
    StepsOn(structure, strings, last);
  }

  lemma KeepIs(values: seq<seq<byte>>)
    ensures Keep(None, values) == match |values| case 0 => Some(None) case 1 => Some(Some(values[0])) case _ => None
  {
    if |values| > 0 {
      assert Keep(Some(values[0]), values[1..]) == if |values| == 1 then Some(Some(values[0])) else None;
    }
  }
}
