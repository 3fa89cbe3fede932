// The scan of an initrd, a newc cpio archive, for etc/mica/boot.json (src/image/boot-policy.ts). JSON.parse is a
// parameter. Numbers are fixed-width hexadecimal, names end in a NUL, names and data are padded to four bytes.
module Newc {
  import opened Wrappers
  import opened Bytes
  import opened Offsets

  const HEADER := 110
  const CPIO_LIMIT := 67108864

  datatype Error = TooLarge | BadHeader | Truncated | Duplicate | BadJson | NoPolicy

  /* -------- JSON values, so far as the scan looks at them -------- */

  datatype Json = Null | Boolean(value: bool) | Number(number: real) | Text(text: string) | Array(items: seq<Json>) | Object(members: seq<(string, Json)>)

  predicate Truthy(j: Json) {
    match j
    case Null => false
    case Boolean(b) => b
    case Number(n) => n != 0.0
    case Text(s) => s != ""
    case _ => true
  }

  // typeof j === 'object'.
  predicate IsObject(j: Json) {
    j.Null? || j.Array? || j.Object?
  }

  /* -------- Headers -------- */

  function HexValue(c: byte): (d: Option<nat>)
    ensures d.Some? ==> d.value < 16
  {
    if 48 <= c <= 57 then Some(c - 48) else if 65 <= c <= 70 then Some(c - 55) else if 97 <= c <= 102 then Some(c - 87) else None
  }

  predicate IsHex(s: seq<byte>) {
    forall k | 0 <= k < |s| :: HexValue(s[k]).Some?
  }

  // Number.parseInt(s, 16).
  function Hex(s: seq<byte>): (n: nat)
    requires IsHex(s)
  {
    if s == [] then 0 else 16 * Hex(s[..|s| - 1]) + HexValue(s[|s| - 1]).value
  }

  const MAGIC := Ascii("070701")

  predicate IsHeader(h: seq<byte>) {
    |h| == HEADER && h[..6] == MAGIC && IsHex(h[6..])
  }

  function Field(h: seq<byte>, from: nat): (n: nat)
    requires IsHeader(h) && 6 <= from <= HEADER - 8
  {
    assert forall k | from <= k < from + 8 :: h[k] == h[6..][k - 6];
    Hex(h[from..from + 8])
  }

  function Size(h: seq<byte>): nat
    requires IsHeader(h)
  {
    Field(h, 54)
  }

  function NameSize(h: seq<byte>): nat
    requires IsHeader(h)
  {
    Field(h, 94)
  }

  /* -------- The scan -------- */

  datatype Member = Member(header: seq<byte>, name: seq<byte>, data: seq<byte>)

  datatype Located = Located(member: Member, next: nat)

  // The member at an offset and where the next one is looked for.
  function Read(cpio: seq<byte>, at: nat): (r: Result<Located, Error>)
    requires |cpio| <= CPIO_LIMIT && at < |cpio|
    ensures r.Ok? ==> r.value.next > at
  {
    var header := if at + HEADER <= |cpio| then cpio[at..at + HEADER] else cpio[at..];
    if !IsHeader(header) then Err(BadHeader) else
      var bytes, names := Size(header), NameSize(header);
      var nameEnd := at + HEADER + names;
      if names < 1 || nameEnd > |cpio| || cpio[nameEnd - 1] != 0 then Err(Truncated) else
        var data := Masked(nameEnd + 3);
        if data + bytes > |cpio| then Err(Truncated)
        else Ok(Located(Member(header, cpio[at + HEADER..nameEnd - 1], cpio[data..data + bytes]), Masked(data + bytes + 3)))
  }

  // replace(/^\.\//, '').
  function Plain(name: seq<byte>): seq<byte> {
    if |name| >= 2 && name[0] == 46 && name[1] == 47 then name[2..] else name
  }

  const TRAILER := Ascii("TRAILER!!!")
  const POLICY_NAME := Ascii("etc/mica/boot.json")

  // The members from an offset up to the trailer or the end.
  function Members(cpio: seq<byte>, at: nat): Option<seq<Member>>
    requires |cpio| <= CPIO_LIMIT
    decreases |cpio| - at
  {
    if at >= |cpio| then Some([]) else
      match Read(cpio, at)
      case Err(_) => None
      case Ok(l) =>
        if Plain(l.member.name) == TRAILER then Some([]) else
          match Members(cpio, l.next)
          case None => None
          case Some(rest) => Some([l.member] + rest)
  }

  // The contents of the members under the policy's name, in order.
  function Policies(members: seq<Member>): seq<seq<byte>> {
    if members == [] then []
    else (if Plain(members[0].name) == POLICY_NAME then [members[0].data] else []) + Policies(members[1..])
  }

  // The value held after some policies, from the value held before them; None where one is refused.
  function Held(parse: seq<byte> -> Option<Json>, found: Option<Json>, policies: seq<seq<byte>>): Option<Option<Json>>
    decreases |policies|
  {
    if policies == [] then Some(found)
    else if found.Some? && Truthy(found.value) then None
    else match parse(policies[0])
      case None => None
      case Some(j) => Held(parse, Some(j), policies[1..])
  }

  // What the scan of the archive's members yields.
  function Chosen(parse: seq<byte> -> Option<Json>, members: Option<seq<Member>>, found: Option<Json>): Option<Json> {
    match members
    case None => None
    case Some(ms) =>
      match Held(parse, found, Policies(ms))
      case Some(Some(j)) => if Truthy(j) && IsObject(j) then Some(j) else None
      case _ => None
  }

  lemma ChosenNext(parse: seq<byte> -> Option<Json>, m: Member, rest: Option<seq<Member>>, found: Option<Json>)
    ensures Chosen(parse, match rest case None => None case Some(ms) => Some([m] + ms), found)
         == if Plain(m.name) != POLICY_NAME then Chosen(parse, rest, found)
            else if found.Some? && Truthy(found.value) then None
            else match parse(m.data)
              case None => None
              case Some(j) => Chosen(parse, rest, Some(j))
  {
    hide Truthy, Plain;
    if rest.Some? {
      var ms := [m] + rest.value;
      assert ms[1..] == rest.value;
      assert [] + Policies(rest.value) == Policies(rest.value);
      assert ([m.data] + Policies(rest.value))[1..] == Policies(rest.value);
    }
  }

  method Scan(parse: seq<byte> -> Option<Json>, cpio: seq<byte>) returns (r: Result<Json, Error>)
    ensures r.Ok? <==> |cpio| <= CPIO_LIMIT && Chosen(parse, Members(cpio, 0), None).Some?
    ensures r.Ok? ==> Some(r.value) == Chosen(parse, Members(cpio, 0), None)
  {
    hide Read, Plain, Truthy, Chosen;
    if |cpio| > CPIO_LIMIT {
      return Err(TooLarge);
    }
    var found: Option<Json> := None;
    var offset := 0;
    ghost var done := false;
    while offset < |cpio|
      invariant Chosen(parse, Members(cpio, 0), None) == Chosen(parse, Members(cpio, offset), found)
      decreases |cpio| - offset
    {
      var l := Read(cpio, offset);
      if l.Err? {
        NoMembers(parse, found);
        return Err(l.error);
      }
      var m := l.value.member;
      if Plain(m.name) == TRAILER {
        break;
      }
      ChosenNext(parse, m, Members(cpio, l.value.next), found);
      if Plain(m.name) == POLICY_NAME {
        if found.Some? && Truthy(found.value) {
          return Err(Duplicate);
        }
        var j := parse(m.data);
        if j.None? {
          return Err(BadJson);
        }
        found := j;
      }
      offset := l.value.next;
    }
    ChosenAtEnd(parse, found);
    if found.None? || !Truthy(found.value) || !IsObject(found.value) {
      return Err(NoPolicy);
    }
    r := Ok(found.value);
  }

  lemma NoMembers(parse: seq<byte> -> Option<Json>, found: Option<Json>)
    ensures Chosen(parse, None, found) == None
  {
  }

  lemma ChosenAtEnd(parse: seq<byte> -> Option<Json>, found: Option<Json>)
    ensures Chosen(parse, Some([]), found) == if found.Some? && Truthy(found.value) && IsObject(found.value) then found else None
  {
  }
}
