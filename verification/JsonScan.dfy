// The search for duplicate keys in a runtime report (readRuntime, src/image/release-manifest.ts): tokens taken by a
// regular expression, and a stack of frames over them. The decoding of a quoted string, JSON.parse, is a parameter.
module JsonScan {
  import opened Wrappers

  /* -------- Tokens -------- */

  datatype Token = Open(square: bool) | Close(square: bool) | Comma | Colon | Quoted(text: string)

  // Where a string that has been opened ends: after any escaped character, at the first quote.
  function Closing(text: string): (r: Option<nat>)
    ensures r.Some? ==> r.value < |text|
  {
    if text == "" then None
    else if text[0] == '"' then Some(0)
    else
      var n := if text[0] == '\\' then 2 else 1;
      if |text| < n then None else
        match Closing(text[n..])
        case None => None
        case Some(k) => Some(n + k)
  }

  function Mark(c: char): Option<Token> {
    match c
    case '{' => Some(Open(false))
    case '[' => Some(Open(true))
    case '}' => Some(Close(false))
    case ']' => Some(Close(true))
    case ',' => Some(Comma)
    case ':' => Some(Colon)
    case _ => None
  }

  // text.match(/"(?:\\[\s\S]|[^"\\])*"|[{}[\],:]/g).
  function Tokenise(text: string): seq<Token> {
    if text == "" then []
    else if text[0] == '"' then
      match Closing(text[1..])
      case None => Tokenise(text[1..])
      case Some(k) => [Quoted(text[..k + 2])] + Tokenise(text[k + 2..])
    else
      match Mark(text[0])
      case None => Tokenise(text[1..])
      case Some(t) => [t] + Tokenise(text[1..])
  }

  /* -------- The scan -------- */

  datatype Frame = Frame(keys: Option<set<string>>, next: bool)

  // The stack after one token; None where a key is refused.
  function Step(decode: string -> string, stack: seq<Frame>, t: Token): Option<seq<Frame>> {
    var top := |stack| - 1;
    match t
    case Open(square) => Some(stack + [Frame(if square then None else Some({}), true)])
    case Close(_) => Some(if stack == [] then [] else stack[..top])
    case Comma => Some(if stack == [] then [] else stack[top := stack[top].(next := true)])
    case Colon => Some(stack)
    case Quoted(text) =>
      if stack == [] || stack[top].keys.None? || !stack[top].next then Some(stack)
      else if decode(text) in stack[top].keys.value then None
      else Some(stack[top := Frame(Some(stack[top].keys.value + {decode(text)}), false)])
  }

  function Run(decode: string -> string, stack: seq<Frame>, tokens: seq<Token>): Option<seq<Frame>>
    decreases |tokens|
  {
    if tokens == [] then Some(stack) else
      match Step(decode, stack, tokens[0])
      case None => None
      case Some(next) => Run(decode, next, tokens[1..])
  }

  lemma {:induction false} RunConcat(decode: string -> string, stack: seq<Frame>, a: seq<Token>, b: seq<Token>)
    ensures Run(decode, stack, a + b) == match Run(decode, stack, a) case None => None case Some(s) => Run(decode, s, b)
    decreases |a|
  {
    hide Step;
    if a == [] {
      assert [] + b == b;
    } else {
      assert (a + b)[1..] == a[1..] + b;
      match Step(decode, stack, a[0])
      case None =>
      case Some(next) => RunConcat(decode, next, a[1..], b);
    }
  }

  // No key is refused.
  method Scan(decode: string -> string, text: string) returns (ok: bool)
    ensures ok <==> Run(decode, [], Tokenise(text)).Some?
  {
    var tokens := Tokenise(text);
    var stack: seq<Frame> := [];
    for i := 0 to |tokens|
      invariant Run(decode, [], tokens) == Run(decode, stack, tokens[i..])
    {
      assert tokens[i..][1..] == tokens[i + 1..];
      match tokens[i]
      case Open(square) =>
        stack := stack + [Frame(if square then None else Some({}), true)];
      case Close(_) =>
        if stack != [] {
          stack := stack[..|stack| - 1];
        }
      case Comma =>
        if stack != [] {
          stack := stack[|stack| - 1 := stack[|stack| - 1].(next := true)];
        }
      case Colon =>
      case Quoted(quoted) =>
        if stack != [] && stack[|stack| - 1].keys.Some? && stack[|stack| - 1].next {
          var key := decode(quoted);
          var keys := stack[|stack| - 1].keys.value;
          if key in keys {
            return false;
          }
          stack := stack[|stack| - 1 := Frame(Some(keys + {key}), false)];
        }
    }
    ok := true;
  }

  /* -------- JSON texts -------- */

  // Values with the text they are written in: each with the space around it, strings and keys as they stand in their
  // quotes. Numbers, literals and space are any text without a quote or a mark.
  datatype Value =
    | Plain(text: string)
    | Text(before: string, raw: string, after: string)
    | Array(before: string, items: Items, after: string)
    | Object(before: string, members: Members, after: string)
  datatype Items = NoItems(space: string) | Item(value: Value, others: Items)
  datatype Members = NoMembers(space: string) | Member(before: string, key: string, after: string, value: Value, rest: Members)

  function Quote(raw: string): string {
    "\"" + raw + "\""
  }

  function Render(v: Value): string {
    match v
    case Plain(text) => text
    case Text(before, raw, after) => before + (Quote(raw) + after)
    case Array(before, items, after) => before + ("[" + (RenderItems(items) + ("]" + after)))
    case Object(before, members, after) => before + ("{" + (RenderMembers(members) + ("}" + after)))
  }

  function RenderItems(items: Items): string {
    match items
    case NoItems(space) => space
    case Item(v, rest) => Render(v) + ((if rest.NoItems? then "" else ",") + RenderItems(rest))
  }

  function RenderMembers(members: Members): string {
    match members
    case NoMembers(space) => space
    case Member(before, key, after, v, rest) =>
      before + (Quote(key) + (after + (":" + (Render(v) + ((if rest.NoMembers? then "" else ",") + RenderMembers(rest))))))
  }

  predicate Space(s: string) {
    forall i | 0 <= i < |s| :: s[i] != '"' && Mark(s[i]).None?
  }

  // A string's text between its quotes: every quote in it is escaped, and its last character escapes nothing.
  predicate Raw(raw: string) {
    if raw == "" then true
    else raw[0] != '"' && (var n := if raw[0] == '\\' then 2 else 1; |raw| >= n && Raw(raw[n..]))
  }

  predicate IsJson(v: Value) {
    match v
    case Plain(text) => Space(text)
    case Text(before, raw, after) => Space(before) && Raw(raw) && Space(after)
    case Array(before, items, after) => Space(before) && AreItems(items) && Space(after)
    case Object(before, members, after) => Space(before) && AreMembers(members) && Space(after)
  }

  predicate AreItems(items: Items) {
    match items
    case NoItems(space) => Space(space)
    case Item(v, rest) => IsJson(v) && AreItems(rest)
  }

  predicate AreMembers(members: Members) {
    match members
    case NoMembers(space) => Space(space)
    case Member(before, key, after, v, rest) => Space(before) && Raw(key) && Space(after) && IsJson(v) && AreMembers(rest)
  }

  // The keys of an object, decoded, in order.
  function Keys(decode: string -> string, members: Members): seq<string> {
    match members
    case NoMembers(_) => []
    case Member(_, key, _, _, rest) => [decode(Quote(key))] + Keys(decode, rest)
  }

  // The objects in a value, at any depth.
  function Objects(v: Value): set<Members> {
    match v
    case Plain(_) => {}
    case Text(_, _, _) => {}
    case Array(_, items, _) => ObjectsOfItems(items)
    case Object(_, members, _) => {members} + ObjectsOfMembers(members)
  }

  function ObjectsOfItems(items: Items): set<Members> {
    match items
    case NoItems(_) => {}
    case Item(v, rest) => Objects(v) + ObjectsOfItems(rest)
  }

  function ObjectsOfMembers(members: Members): set<Members> {
    match members
    case NoMembers(_) => {}
    case Member(_, _, _, v, rest) => Objects(v) + ObjectsOfMembers(rest)
  }

  ghost predicate Distinct(keys: seq<string>) {
    forall i, j | 0 <= i < j < |keys| :: keys[i] != keys[j]
  }

  ghost predicate NoDuplicates(decode: string -> string, objects: set<Members>) {
    forall members | members in objects :: Distinct(Keys(decode, members))
  }

  /* -------- The tokens of a text -------- */

  function Tokens(v: Value): seq<Token> {
    match v
    case Plain(_) => []
    case Text(_, raw, _) => [Quoted(Quote(raw))]
    case Array(_, items, _) => [Open(true)] + (TokensOfItems(items) + [Close(true)])
    case Object(_, members, _) => [Open(false)] + (TokensOfMembers(members) + [Close(false)])
  }

  function TokensOfItems(items: Items): seq<Token> {
    match items
    case NoItems(_) => []
    case Item(v, rest) => Tokens(v) + ((if rest.NoItems? then [] else [Comma]) + TokensOfItems(rest))
  }

  function TokensOfMembers(members: Members): seq<Token> {
    match members
    case NoMembers(_) => []
    case Member(_, key, _, v, rest) =>
      [Quoted(Quote(key)), Colon] + (Tokens(v) + ((if rest.NoMembers? then [] else [Comma]) + TokensOfMembers(rest)))
  }

  lemma {:induction false} SkipsSpace(s: string, rest: string)
    requires Space(s)
    ensures Tokenise(s + rest) == Tokenise(rest)
    decreases |s|
  {
    if s == "" {
      assert s + rest == rest;
    } else {
      assert (s + rest)[1..] == s[1..] + rest;
      SkipsSpace(s[1..], rest);
    }
  }

  lemma {:induction false} FindsClosing(raw: string, rest: string)
    requires Raw(raw)
    ensures Closing(raw + "\"" + rest) == Some(|raw|)
    decreases |raw|
  {
    if raw != "" {
      var n := if raw[0] == '\\' then 2 else 1;
      assert (raw + "\"" + rest)[n..] == raw[n..] + "\"" + rest;
      FindsClosing(raw[n..], rest);
    }
  }

  lemma TakesString(raw: string, rest: string)
    requires Raw(raw)
    ensures Tokenise(Quote(raw) + rest) == [Quoted(Quote(raw))] + Tokenise(rest)
  {
    var text := Quote(raw) + rest;
    FindsClosing(raw, rest);
    hide Closing;
    assert text[1..] == raw + "\"" + rest;
    assert text[..|raw| + 2] == Quote(raw) && text[|raw| + 2..] == rest;
  }

  lemma TakesMark(c: char, rest: string)
    requires Mark(c).Some?
    ensures Tokenise([c] + rest) == [Mark(c).value] + Tokenise(rest)
  {
    assert ([c] + rest)[1..] == rest;
  }

  lemma {:induction false} TokensOfText(v: Value, rest: string)
    requires IsJson(v)
    ensures Tokenise(Render(v) + rest) == Tokens(v) + Tokenise(rest)
    decreases v
  {
    hide Tokenise, Space, Raw, Quote;
    match v
    case Plain(text) =>
      SkipsSpace(text, rest);
      assert Tokens(v) + Tokenise(rest) == Tokenise(rest);
    case Text(before, raw, after) =>
      Regroup(before, Quote(raw), after, rest);
      SkipsSpace(before, Quote(raw) + (after + rest));
      TakesString(raw, after + rest);
      SkipsSpace(after, rest);
    case Array(before, items, after) =>
      var tail := "]" + (after + rest);
      TokensOfArrayText(items, tail);
      Enclosed(before, "[", RenderItems(items), "]", after, rest);
      SkipsSpace(before, "[" + (RenderItems(items) + tail));
      TakesMark('[', RenderItems(items) + tail);
      TakesMark(']', after + rest);
      SkipsSpace(after, rest);
      assert Tokens(v) + Tokenise(rest) == [Open(true)] + (TokensOfItems(items) + ([Close(true)] + Tokenise(rest)));
    case Object(before, members, after) =>
      var tail := "}" + (after + rest);
      TokensOfObjectText(members, tail);
      Enclosed(before, "{", RenderMembers(members), "}", after, rest);
      SkipsSpace(before, "{" + (RenderMembers(members) + tail));
      TakesMark('{', RenderMembers(members) + tail);
      TakesMark('}', after + rest);
      SkipsSpace(after, rest);
      assert Tokens(v) + Tokenise(rest) == [Open(false)] + (TokensOfMembers(members) + ([Close(false)] + Tokenise(rest)));
  }

  lemma Regroup(a: string, b: string, c: string, rest: string)
    ensures a + (b + c) + rest == a + (b + (c + rest))
  {
  }

  lemma Enclosed(a: string, b: string, c: string, d: string, e: string, rest: string)
    ensures a + (b + (c + (d + e))) + rest == a + (b + (c + (d + (e + rest))))
  {
  }

  lemma {:induction false} TokensOfArrayText(items: Items, rest: string)
    requires AreItems(items)
    ensures Tokenise(RenderItems(items) + rest) == TokensOfItems(items) + Tokenise(rest)
    decreases items
  {
    hide Tokenise, Space, Raw, Quote;
    match items
    case NoItems(space) =>
      SkipsSpace(space, rest);
      assert TokensOfItems(items) + Tokenise(rest) == Tokenise(rest);
    case Item(v, others) =>
      var comma, comma' := if others.NoItems? then "" else ",", if others.NoItems? then [] else [Comma];
      Regroup(Render(v), comma, RenderItems(others), rest);
      TokensOfText(v, comma + (RenderItems(others) + rest));
      TokensOfArrayText(others, rest);
      TakesComma(comma, RenderItems(others) + rest);
      RegroupTokens(Tokens(v), comma', TokensOfItems(others), Tokenise(rest));
  }

  lemma RegroupTokens(a: seq<Token>, b: seq<Token>, c: seq<Token>, rest: seq<Token>)
    ensures a + (b + c) + rest == a + (b + (c + rest))
  {
  }

  lemma TakesComma(comma: string, rest: string)
    requires comma == "" || comma == ","
    ensures Tokenise(comma + rest) == (if comma == "" then [] else [Comma]) + Tokenise(rest)
  {
    if comma == "" {
      assert comma + rest == rest;
      assert [] + Tokenise(rest) == Tokenise(rest);
    } else {
      TakesMark(',', rest);
    }
  }

  lemma {:induction false} TokensOfObjectText(members: Members, rest: string)
    requires AreMembers(members)
    ensures Tokenise(RenderMembers(members) + rest) == TokensOfMembers(members) + Tokenise(rest)
    decreases members
  {
    hide Tokenise, Space, Raw, Quote;
    match members
    case NoMembers(space) =>
      SkipsSpace(space, rest);
      assert TokensOfMembers(members) + Tokenise(rest) == Tokenise(rest);
    case Member(before, key, after, v, others) =>
      var comma, comma' := if others.NoMembers? then "" else ",", if others.NoMembers? then [] else [Comma];
      var tail := comma + (RenderMembers(others) + rest);
      TokensOfText(v, tail);
      TokensOfObjectText(others, rest);
      TakesComma(comma, RenderMembers(others) + rest);
      TokensOfKey(before, key, after, Render(v) + tail);
      Regroup(Render(v), comma, RenderMembers(others), rest);
      Enclosed(before, Quote(key), after, ":", Render(v) + (comma + RenderMembers(others)), rest);
      RegroupTokens(Tokens(v), comma', TokensOfMembers(others), Tokenise(rest));
      RegroupTokens([Quoted(Quote(key)), Colon], Tokens(v), comma' + TokensOfMembers(others), Tokenise(rest));
  }

  lemma TokensOfKey(before: string, key: string, after: string, rest: string)
    requires Space(before) && Raw(key) && Space(after)
    ensures Tokenise(before + (Quote(key) + (after + (":" + rest)))) == [Quoted(Quote(key)), Colon] + Tokenise(rest)
  {
    hide Tokenise, Space, Raw, Quote;
    SkipsSpace(before, Quote(key) + (after + (":" + rest)));
    TakesString(key, after + (":" + rest));
    SkipsSpace(after, ":" + rest);
    TakesMark(':', rest);
    assert [Quoted(Quote(key)), Colon] + Tokenise(rest) == [Quoted(Quote(key))] + ([Colon] + Tokenise(rest));
  }

  /* -------- The scan over a value's tokens -------- */

  // A string here is a value, not a key.
  predicate AtValue(stack: seq<Frame>) {
    stack == [] || stack[|stack| - 1].keys.None? || !stack[|stack| - 1].next
  }

  // A key already seen, or repeated, or an object with duplicates below.
  ghost predicate Clash(decode: string -> string, seen: set<string>, members: Members)
    decreases members
  {
    match members
    case NoMembers(_) => false
    case Member(_, key, _, v, rest) =>
      decode(Quote(key)) in seen || Refused(decode, v) || Clash(decode, seen + {decode(Quote(key))}, rest)
  }

  ghost predicate Refused(decode: string -> string, v: Value)
    decreases v
  {
    match v
    case Plain(_) => false
    case Text(_, _, _) => false
    case Array(_, items, _) => ItemsRefused(decode, items)
    case Object(_, members, _) => Clash(decode, {}, members)
  }

  ghost predicate ItemsRefused(decode: string -> string, items: Items)
    decreases items
  {
    match items
    case NoItems(_) => false
    case Item(v, rest) => Refused(decode, v) || ItemsRefused(decode, rest)
  }

  lemma RunOne(decode: string -> string, stack: seq<Frame>, t: Token, rest: seq<Token>)
    ensures Run(decode, stack, [t] + rest) == match Step(decode, stack, t) case None => None case Some(s) => Run(decode, s, rest)
  {
    assert ([t] + rest)[1..] == rest;
  }

  lemma {:induction false} RunValue(decode: string -> string, stack: seq<Frame>, v: Value, rest: seq<Token>)
    requires AtValue(stack)
    ensures Run(decode, stack, Tokens(v) + rest) == if Refused(decode, v) then None else Run(decode, stack, rest)
    decreases v
  {
    hide Run;
    match v
    case Plain(_) => assert [] + rest == rest;
    case Text(_, raw, _) => RunOne(decode, stack, Quoted(Quote(raw)), rest);
    case Array(_, items, _) =>
      var inner := stack + [Frame(None, true)];
      RegroupTokens([Open(true)], TokensOfItems(items), [Close(true)], rest);
      RunOne(decode, stack, Open(true), TokensOfItems(items) + ([Close(true)] + rest));
      RunItems(decode, stack, items, [Close(true)] + rest);
      RunOne(decode, inner, Close(true), rest);
      assert inner[..|inner| - 1] == stack;
    case Object(_, members, _) =>
      RegroupTokens([Open(false)], TokensOfMembers(members), [Close(false)], rest);
      RunOne(decode, stack, Open(false), TokensOfMembers(members) + ([Close(false)] + rest));
      RunMembers(decode, stack, {}, members, rest);
  }

  lemma {:induction false} RunItems(decode: string -> string, stack: seq<Frame>, items: Items, rest: seq<Token>)
    ensures var inner := stack + [Frame(None, true)];
      Run(decode, inner, TokensOfItems(items) + rest) == if ItemsRefused(decode, items) then None else Run(decode, inner, rest)
    decreases items
  {
    hide Run;
    var inner := stack + [Frame.Frame(None, true)];
    match items
    case NoItems(_) => assert [] + rest == rest;
    case Item(v, others) =>
      var comma := if others.NoItems? then [] else [Comma];
      RegroupTokens(Tokens(v), comma, TokensOfItems(others), rest);
      RunValue(decode, inner, v, comma + (TokensOfItems(others) + rest));
      RunItems(decode, stack, others, rest);
      if others.NoItems? {
        assert comma + (TokensOfItems(others) + rest) == TokensOfItems(others) + rest;
      } else {
        RunOne(decode, inner, Comma, TokensOfItems(others) + rest);
        assert inner[|inner| - 1 := Frame(None, true)] == inner;
      }
  }

  // An object's members, from the start of one, and its closing brace.
  lemma {:induction false} RunMembers(decode: string -> string, stack: seq<Frame>, seen: set<string>, members: Members, rest: seq<Token>)
    ensures Run(decode, stack + [Frame(Some(seen), true)], TokensOfMembers(members) + ([Close(false)] + rest))
         == if Clash(decode, seen, members) then None else Run(decode, stack, rest)
    decreases members
  {
    hide Run;
    var inner := stack + [Frame(Some(seen), true)];
    var tail := [Close(false)] + rest;
    match members
    case NoMembers(_) =>
      assert [] + tail == tail;
      CloseObject(decode, stack, seen, true, rest);
    case Member(_, key, _, v, others) =>
      var k := decode(Quote(key));
      var comma := if others.NoMembers? then [] else [Comma];
      var more := comma + (TokensOfMembers(others) + tail);
      RegroupTokens([Quoted(Quote(key)), Colon], Tokens(v), comma + TokensOfMembers(others), tail);
      assert (comma + TokensOfMembers(others)) + tail == more;
      RunKey(decode, stack, seen, key, Tokens(v) + more);
      if k !in seen {
        RunValue(decode, stack + [Frame(Some(seen + {k}), false)], v, more);
        if others.NoMembers? {
          assert more == tail;
          CloseObject(decode, stack, seen + {k}, false, rest);
        } else {
          NextMember(decode, stack, seen + {k}, TokensOfMembers(others) + tail);
          RunMembers(decode, stack, seen + {k}, others, rest);
        }
      }
  }

  lemma CloseObject(decode: string -> string, stack: seq<Frame>, seen: set<string>, next: bool, rest: seq<Token>)
    ensures Run(decode, stack + [Frame(Some(seen), next)], [Close(false)] + rest) == Run(decode, stack, rest)
  {
    var inner := stack + [Frame(Some(seen), next)];
    RunOne(decode, inner, Close(false), rest);
    assert inner[..|inner| - 1] == stack;
  }

  lemma RunKey(decode: string -> string, stack: seq<Frame>, seen: set<string>, key: string, rest: seq<Token>)
    ensures var k := decode(Quote(key));
      Run(decode, stack + [Frame(Some(seen), true)], [Quoted(Quote(key)), Colon] + rest)
      == if k in seen then None else Run(decode, stack + [Frame(Some(seen + {k}), false)], rest)
  {
    hide Run;
    var inner, k := stack + [Frame(Some(seen), true)], decode(Quote(key));
    assert [Quoted(Quote(key)), Colon] + rest == [Quoted(Quote(key))] + ([Colon] + rest);
    RunOne(decode, inner, Quoted(Quote(key)), [Colon] + rest);
    if k !in seen {
      var after := stack + [Frame(Some(seen + {k}), false)];
      assert inner[|inner| - 1 := Frame(Some(seen + {k}), false)] == after;
      RunOne(decode, after, Colon, rest);
    }
  }

  lemma NextMember(decode: string -> string, stack: seq<Frame>, seen: set<string>, rest: seq<Token>)
    ensures Run(decode, stack + [Frame(Some(seen), false)], [Comma] + rest) == Run(decode, stack + [Frame(Some(seen), true)], rest)
  {
    var inner := stack + [Frame(Some(seen), false)];
    RunOne(decode, inner, Comma, rest);
    assert inner[|inner| - 1 := Frame(Some(seen), true)] == stack + [Frame(Some(seen), true)];
  }

  /* -------- What is refused -------- */

  lemma {:induction false} ClashIs(decode: string -> string, seen: set<string>, members: Members)
    ensures Clash(decode, seen, members) <==>
      || (exists i | 0 <= i < |Keys(decode, members)| :: Keys(decode, members)[i] in seen)
      || !Distinct(Keys(decode, members))
      || !NoDuplicates(decode, ObjectsOfMembers(members))
    decreases members
  {
    match members
    case NoMembers(_) =>
    case Member(_, key, _, v, rest) =>
      var k := decode(Quote(key));
      ClashIs(decode, seen + {k}, rest);
      RefusedIs(decode, v);
      NoDuplicatesUnion(decode, Objects(v), ObjectsOfMembers(rest));
      KeysCons(k, Keys(decode, rest), seen);
  }

  lemma KeysCons(k: string, keys: seq<string>, seen: set<string>)
    ensures Distinct([k] + keys) <==> k !in keys && Distinct(keys)
    ensures (exists i | 0 <= i < |[k] + keys| :: ([k] + keys)[i] in seen) <==> k in seen || exists i | 0 <= i < |keys| :: keys[i] in seen
    ensures (exists i | 0 <= i < |keys| :: keys[i] in seen + {k}) <==> k in keys || exists i | 0 <= i < |keys| :: keys[i] in seen
  {
    var all := [k] + keys;
    assert all[0] == k && forall i | 0 <= i < |keys| :: keys[i] == all[i + 1];
    assert forall i | 1 <= i < |all| :: all[i] == keys[i - 1];
  }

  lemma NoDuplicatesUnion(decode: string -> string, a: set<Members>, b: set<Members>)
    ensures NoDuplicates(decode, a + b) <==> NoDuplicates(decode, a) && NoDuplicates(decode, b)
  {
  }

  lemma {:induction false} RefusedIs(decode: string -> string, v: Value)
    ensures Refused(decode, v) <==> !NoDuplicates(decode, Objects(v))
    decreases v
  {
    match v
    case Plain(_) =>
    case Text(_, _, _) =>
    case Array(_, items, _) => ItemsRefusedIs(decode, items);
    case Object(_, members, _) =>
      ClashIs(decode, {}, members);
      NoDuplicatesUnion(decode, {members}, ObjectsOfMembers(members));
  }

  lemma {:induction false} ItemsRefusedIs(decode: string -> string, items: Items)
    ensures ItemsRefused(decode, items) <==> !NoDuplicates(decode, ObjectsOfItems(items))
    decreases items
  {
    match items
    case NoItems(_) =>
    case Item(v, rest) =>
      RefusedIs(decode, v);
      ItemsRefusedIs(decode, rest);
      NoDuplicatesUnion(decode, Objects(v), ObjectsOfItems(rest));
  }

  // A JSON text passes exactly when no object in it, at any depth, has two members whose keys decode alike.
  lemma ScanIsExact(decode: string -> string, v: Value)
    requires IsJson(v)
    ensures Run(decode, [], Tokenise(Render(v))).Some?
       <==> forall members | members in Objects(v) :: Distinct(Keys(decode, members))
  {
    hide Run, Tokenise, Refused, Tokens, Distinct;
    var text := Render(v);
    TokensOfText(v, "");
    assert text + "" == text;
    EmptyText(decode);
    RunValue(decode, [], v, []);
    assert Tokens(v) + [] == Tokens(v);
    RefusedIs(decode, v);
  }

  lemma EmptyText(decode: string -> string)
    ensures Tokenise("") == [] && Run(decode, [], []) == Some([])
  {
  }
}
