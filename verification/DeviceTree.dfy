// The scan of a FIT's structure block (src/image/boot-policy.ts) for the initrd, as an offset into tokens with a stack
// of node names, against lookup in the tree that the Devicetree Specification v0.4 flattens (section 5.4).
module DeviceTree {
  import opened Wrappers
  import opened Bytes
  import opened Offsets

  const BEGIN_NODE := 1
  const END_NODE := 2
  const PROP := 3
  const NOP := 4
  const END := 9
  const SLASH: byte := 47
  const STRUCTURE_LIMIT := 0xFFFF_FFFD

  datatype Error = Truncated | NotFit | BadNode | BadNesting | BadProperty | BadToken | Duplicate | NoInitrd

  /* -------- Reading -------- */

  function U32(s: seq<byte>, at: nat): (n: nat)
    requires at + 4 <= |s|
    ensures n < U32_LIMIT
  {
    FixedWidths();
    FromBigEndian(Slice(s, at, 4))
  }

  /* -------- The scan -------- */

  datatype State = State(offset: int, nodes: seq<seq<byte>>, initrd: Option<seq<byte>>)

  datatype Outcome = Go(state: State) | Stop | Fail(error: Error)

  const START := State(0, [], None)

  // nodes.join('/').
  function Join(nodes: seq<seq<byte>>): seq<byte> {
    if nodes == [] then [] else if |nodes| == 1 then nodes[0] else nodes[0] + [SLASH] + Join(nodes[1..])
  }

  predicate IsInitrd(nodes: seq<seq<byte>>, name: seq<byte>) {
    Join(nodes) == Ascii("/images/ramdisk") && name == Ascii("data")
  }

  // One token, read at an offset below the length of the block. On a block below the limit every step moves forward or
  // fails, at the latest where the offset has become negative.
  function Step(structure: seq<byte>, strings: seq<byte>, s: State): (r: Outcome)
    ensures |structure| < STRUCTURE_LIMIT && r.Go? ==> 0 <= s.offset && (r.state.offset > s.offset || r.state.offset < 0)
  {
    if s.offset < 0 || s.offset + 4 > |structure| then Fail(Truncated) else
      var offset := s.offset + 4;
      match U32(structure, s.offset)
      case 1 =>
        (match Nul(structure, offset)
         case None => Fail(BadNode)
         case Some(end) => Go(s.(nodes := s.nodes + [structure[offset..end]], offset := Masked(end + 4))))
      case 2 => if s.nodes == [] then Fail(BadNesting) else Go(s.(nodes := s.nodes[..|s.nodes| - 1], offset := offset))
      case 3 => if offset + 8 > |structure| then Fail(Truncated) else Property(structure, strings, s, offset)
      case 4 => Go(s.(offset := offset))
      case 9 => Stop
      case _ => Fail(BadToken)
  }

  function Property(structure: seq<byte>, strings: seq<byte>, s: State, offset: nat): Outcome
    requires offset + 8 <= |structure|
  {
    var size, name, data := U32(structure, offset), U32(structure, offset + 4), offset + 8;
    match Nul(strings, name)
    case None => Fail(BadProperty)
    case Some(end) =>
      if data + size > |structure| then Fail(BadProperty)
      else if !IsInitrd(s.nodes, strings[name..end]) then Go(s.(offset := Masked(data + size + 3)))
      else if s.initrd.Some? then Fail(Duplicate)
      else Go(s.(offset := Masked(data + size + 3), initrd := Some(structure[data..data + size])))
  }

  // From the limit on it need not: a property that ends where the offset wraps to zero sends the scan back to its start.
  lemma LargerBlocksMayLoop(size: nat)
    requires STRUCTURE_LIMIT <= size < U32_LIMIT
    ensures exists structure: seq<byte>, strings: seq<byte> :: |structure| == size && Step(structure, strings, START) == Go(START)
  {
    hide *;
    var structure := LoopingBlock(size);
    LoopingProperty(structure, Zeros(1));
  }

  lemma LoopingBlock(size: nat) returns (structure: seq<byte>)
    requires STRUCTURE_LIMIT <= size < U32_LIMIT
    ensures |structure| == size
    ensures U32(structure, 0) == PROP && U32(structure, 4) == STRUCTURE_LIMIT - 12 && U32(structure, 8) == 0
  {
    hide U32, BigEndian;
    structure := ThreeWords(PROP, STRUCTURE_LIMIT - 12, 0, Zeros(size - 12));
  }

  lemma ThreeWords(a: nat, b: nat, c: nat, rest: seq<byte>) returns (s: seq<byte>)
    requires a < U32_LIMIT && b < U32_LIMIT && c < U32_LIMIT
    ensures |s| == 12 + |rest| && U32(s, 0) == a && U32(s, 4) == b && U32(s, 8) == c
  {
    hide U32, BigEndian;
    var x, y, z := BigEndian(a, 4), BigEndian(b, 4), BigEndian(c, 4);
    s := x + y + z + rest;
    assert s == [] + x + (y + z + rest) && s == x + y + (z + rest) && s == (x + y) + z + rest;
    ReadsBack([], a, y + z + rest, s);
    ReadsBack(x, b, z + rest, s);
    ReadsBack(x + y, c, rest, s);
  }

  lemma LoopingProperty(structure: seq<byte>, strings: seq<byte>)
    requires |structure| >= STRUCTURE_LIMIT && strings == Zeros(1)
    requires U32(structure, 0) == PROP && U32(structure, 4) == STRUCTURE_LIMIT - 12 && U32(structure, 8) == 0
    ensures Step(structure, strings, START) == Go(START)
  {
    hide U32, Join;
    assert Nul(strings, 0) == Some(0);
    assert Masked(STRUCTURE_LIMIT + 3) == 0;
    NotInside();
  }

  lemma NotInside()
    ensures !IsInitrd([], [])
  {
    assert Ascii("data")[0] == 100;
  }

  lemma ReadsBack(before: seq<byte>, n: nat, after: seq<byte>, all: seq<byte>)
    requires n < U32_LIMIT && all == before + BigEndian(n, 4) + after
    ensures U32(all, |before|) == n
  {
    hide BigEndian, FromBigEndian;
    FixedWidths();
    BigEndianRoundTrip(n, 4);
    assert Slice(all, |before|, 4) == BigEndian(n, 4);
  }

  // The rest of the scan.
  function ScanFrom(structure: seq<byte>, strings: seq<byte>, s: State): Result<Option<seq<byte>>, Error>
    requires |structure| < STRUCTURE_LIMIT
    decreases if s.offset < 0 then 0 else if s.offset < |structure| then 1 + |structure| - s.offset else 0
  {
    if s.offset >= |structure| then Ok(s.initrd) else
      match Step(structure, strings, s)
      case Stop => Ok(s.initrd)
      case Fail(e) => Err(e)
      case Go(next) =>
        if next.offset < 0 then Err(Truncated) else ScanFrom(structure, strings, next)
  }

  method Scan(structure: seq<byte>, strings: seq<byte>) returns (r: Result<Option<seq<byte>>, Error>)
    requires |structure| < STRUCTURE_LIMIT
    ensures r == ScanFrom(structure, strings, START)
  {
    hide U32, Join, Nul;
    var nodes: seq<seq<byte>> := [];
    var initrd: Option<seq<byte>> := None;
    var offset: int := 0;
    while offset < |structure|
      invariant offset >= 0
      invariant ScanFrom(structure, strings, START) == ScanFrom(structure, strings, State(offset, nodes, initrd))
      decreases |structure| - offset
    {
      ghost var before := State(offset, nodes, initrd);
      if offset + 4 > |structure| {
        return Err(Truncated);
      }
      var token := U32(structure, offset);
      offset := offset + 4;
      if token == BEGIN_NODE {
        var end := Nul(structure, offset);
        if end.None? {
          return Err(BadNode);
        }
        nodes := nodes + [structure[offset..end.value]];
        offset := Masked(end.value + 4);
      } else if token == END_NODE {
        if nodes == [] {
          return Err(BadNesting);
        }
        nodes := nodes[..|nodes| - 1];
      } else if token == PROP {
        if offset + 8 > |structure| {
          return Err(Truncated);
        }
        var size, name := U32(structure, offset), U32(structure, offset + 4);
        offset := offset + 8;
        var end := Nul(strings, name);
        if end.None? || offset + size > |structure| {
          return Err(BadProperty);
        }
        if IsInitrd(nodes, strings[name..end.value]) {
          if initrd.Some? {
            return Err(Duplicate);
          }
          initrd := Some(structure[offset..offset + size]);
        }
        offset := Masked(offset + size + 3);
      } else if token == END {
        return Ok(initrd);
      } else if token != NOP {
        return Err(BadToken);
      }
      assert Step(structure, strings, before) == Go(State(offset, nodes, initrd));
      if offset < 0 {
        // The next read is at a negative offset.
        return Err(Truncated);
      }
    }
    r := Ok(initrd);
  }
}
