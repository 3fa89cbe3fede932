// The kernel feature table and its closure (src/boards/kernel-features.ts): what a product needs of a board's kernel
// is the least set of features that holds what it triggers and what those require.
module KernelFeatures {
  import opened Wrappers

  datatype Kind = Init | Storage | Feature | Package
  datatype Trigger = Trigger(kind: Kind, value: string)
  datatype Row = Row(name: string, required: seq<string>, triggers: seq<Trigger>)

  // What a product brings, by kind.
  datatype Needs = Needs(init: Option<string>, storage: Option<string>, features: seq<string>, packages: set<string>) {
    predicate Has(t: Trigger) {
      match t.kind
      case Init => init == Some(t.value)
      case Storage => storage == Some(t.value)
      case Feature => t.value in features
      case Package => t.value in packages
    }
  }

  predicate HasRow(table: seq<Row>, name: string) {
    exists i | 0 <= i < |table| :: table[i].name == name
  }

  ghost predicate DistinctNames(table: seq<Row>) {
    forall i, j | 0 <= i < j < |table| :: table[i].name != table[j].name
  }

  ghost predicate RequiresKnown(table: seq<Row>, r: Row) {
    forall k | 0 <= k < |r.required| :: r.required[k] != "core" && HasRow(table, r.required[k])
  }

  // What parseKernelFeatures holds its rows to.
  ghost predicate WellFormed(table: seq<Row>) {
    && DistinctNames(table)
    && table != [] && table[0].name == "core" && table[0].required == [] && table[0].triggers == []
    && forall i | 0 <= i < |table| :: RequiresKnown(table, table[i])
  }

  method FindRow(table: seq<Row>, name: string) returns (found: bool)
    ensures found <==> HasRow(table, name)
  {
    for i := 0 to |table|
      invariant forall k | 0 <= k < i :: table[k].name != name
    {
      if table[i].name == name {
        return true;
      }
    }
    found := false;
  }

  // The checks of parseKernelFeatures over its parsed rows: a name once, core first and bare, requirements known.
  method CheckTable(parsed: seq<Row>) returns (ok: bool)
    ensures ok <==> WellFormed(parsed)
  {
    var rows: seq<Row> := [];
    for i := 0 to |parsed|
      invariant rows == parsed[..i] && DistinctNames(rows)
    {
      var twice := FindRow(rows, parsed[i].name);
      if twice {
        var k :| 0 <= k < i && rows[k].name == parsed[i].name;
        assert parsed[k].name == parsed[i].name;
        return false;
      }
      rows := rows + [parsed[i]];
    }
    if rows == [] || rows[0].name != "core" || rows[0].required != [] || rows[0].triggers != [] {
      return false;
    }
    for i := 0 to |rows|
      invariant forall k | 0 <= k < i :: RequiresKnown(rows, rows[k])
    {
      for k := 0 to |rows[i].required|
        invariant forall q | 0 <= q < k :: rows[i].required[q] != "core" && HasRow(rows, rows[i].required[q])
      {
        var known := FindRow(rows, rows[i].required[k]);
        if rows[i].required[k] == "core" || !known {
          assert !RequiresKnown(rows, rows[i]);
          return false;
        }
      }
    }
    ok := true;
  }

  /* -------- The closure -------- */

  predicate Triggers(r: Row, needs: Needs) {
    exists k | 0 <= k < |r.triggers| :: needs.Has(r.triggers[k])
  }

  // The features a product triggers itself.
  function Direct(table: seq<Row>, needs: Needs): set<string> {
    set i | 0 <= i < |table| && Triggers(table[i], needs) :: table[i].name
  }

  // What a product brings, as the triggers it meets: its init and storage, each of its features, each of its packages.
  function Brought(needs: Needs): set<Trigger> {
    (if needs.init.Some? then {Trigger(Init, needs.init.value)} else {})
    + (if needs.storage.Some? then {Trigger(Storage, needs.storage.value)} else {})
    + (set f | f in needs.features :: Trigger(Feature, f)) + (set p | p in needs.packages :: Trigger(Package, p))
  }

  predicate Meets(r: Row, triggers: set<Trigger>) {
    exists t :: t in r.triggers && t in triggers
  }

  // A feature is triggered exactly where one of its triggers, kind and value, is among these.
  lemma DirectIsBrought(table: seq<Row>, needs: Needs)
    ensures Direct(table, needs) == set i | 0 <= i < |table| && Meets(table[i], Brought(needs)) :: table[i].name
  {
    forall i | 0 <= i < |table| ensures Triggers(table[i], needs) <==> Meets(table[i], Brought(needs)) {
      TriggersIsMeets(table[i], needs);
    }
  }

  lemma TriggersIsMeets(r: Row, needs: Needs)
    ensures Triggers(r, needs) <==> Meets(r, Brought(needs))
  {
    forall t: Trigger ensures needs.Has(t) <==> t in Brought(needs) {
    }
    hide Brought;
    if k :| 0 <= k < |r.triggers| && needs.Has(r.triggers[k]) {
      assert r.triggers[k] in r.triggers;
    }
    if t :| t in r.triggers && t in Brought(needs) {
      var k :| 0 <= k < |r.triggers| && r.triggers[k] == t;
      assert needs.Has(r.triggers[k]);
    }
  }

  ghost predicate Closed(table: seq<Row>, s: set<string>) {
    forall i, k | 0 <= i < |table| && table[i].name in s && 0 <= k < |table[i].required| :: table[i].required[k] in s
  }

  // The least set of features that holds base and is closed under what features require.
  ghost predicate IsClosure(table: seq<Row>, base: set<string>, s: set<string>) {
    && base <= s && Closed(table, s)
    && forall t: set<string> | base <= t && Closed(table, t) :: s <= t
  }

  // Why a feature is needed.
  datatype Reason = Triggered(t: Trigger) | RequiredBy(name: string)

  ghost predicate Justified(table: seq<Row>, needs: Needs, needed: set<string>, name: string, why: Reason) {
    exists i | 0 <= i < |table| ::
      match why
      case Triggered(t) => table[i].name == name && t in table[i].triggers && needs.Has(t)
      case RequiredBy(other) => table[i].name == other && other in needed && name in table[i].required
  }

  // A Map in insertion order: the names, and the reasons under each.
  datatype Needed = Needed(order: seq<string>, why: map<string, seq<Reason>>) {
    ghost predicate Valid() {
      && (forall n :: n in why <==> n in order)
      && forall i, j | 0 <= i < j < |order| :: order[i] != order[j]
    }

    function Why(name: string): seq<Reason> {
      if name in why then why[name] else []
    }

    function Add(name: string, reason: Reason): Needed {
      if name in why then Needed(order, why[name := why[name] + [reason]])
      else Needed(order + [name], why[name := [reason]])
    }
  }

  ghost predicate ReasonsHold(table: seq<Row>, needs: Needs, n: Needed) {
    forall name | name in n.why :: n.why[name] != [] && forall r | r in n.why[name] :: Justified(table, needs, n.why.Keys, name, r)
  }

  lemma AddKeeps(table: seq<Row>, needs: Needs, n: Needed, name: string, reason: Reason)
    requires n.Valid() && ReasonsHold(table, needs, n)
    requires Justified(table, needs, n.why.Keys, name, reason)
    ensures n.Add(name, reason).Valid() && ReasonsHold(table, needs, n.Add(name, reason))
    ensures n.Add(name, reason).why.Keys == n.why.Keys + {name}
    ensures n.order <= n.Add(name, reason).order
  {
    var m := n.Add(name, reason);
    assert m.why.Keys == n.why.Keys + {name};
    forall x | x in m.why
      ensures m.why[x] != [] && forall r | r in m.why[x] :: Justified(table, needs, m.why.Keys, x, r)
    {
      forall r | r in m.why[x] ensures Justified(table, needs, m.why.Keys, x, r) {
        assert Justified(table, needs, n.why.Keys, x, r);
      }
    }
  }

  // Of some triggers those a product meets, as reasons in order.
  function Met(triggers: seq<Trigger>, needs: Needs): seq<Reason> {
    if triggers == [] then [] else
      var last := triggers[|triggers| - 1];
      Met(triggers[..|triggers| - 1], needs) + if needs.Has(last) then [Triggered(last)] else []
  }

  // Every reason a product gives a feature itself.
  function Reasons(table: seq<Row>, needs: Needs, name: string): seq<Reason> {
    if table == [] then [] else
      var last := table[|table| - 1];
      Reasons(table[..|table| - 1], needs, name) + if last.name == name then Met(last.triggers, needs) else []
  }

  // The features it triggers, in the order of the table.
  function InOrder(table: seq<Row>, needs: Needs): seq<string> {
    if table == [] then [] else
      var front, last := InOrder(table[..|table| - 1], needs), table[|table| - 1];
      if Met(last.triggers, needs) != [] && last.name !in front then front + [last.name] else front
  }

  // The map has grown by some reasons for one feature.
  ghost predicate Grew(n: Needed, before: Needed, name: string, reasons: seq<Reason>) {
    && (forall x: string :: n.Why(x) == if x == name then before.Why(x) + reasons else before.Why(x))
    && n.order == if reasons != [] && name !in before.order then before.order + [name] else before.order
  }

  // What a row adds to what the rows before it have, of its first k triggers.
  ghost predicate Adding(n: Needed, before: Needed, r: Row, needs: Needs, k: nat)
    requires k <= |r.triggers|
  {
    Grew(n, before, r.name, Met(r.triggers[..k], needs))
  }

  lemma GrewOne(n: Needed, before: Needed, name: string, reasons: seq<Reason>, reason: Reason)
    requires n.Valid() && Grew(n, before, name, reasons)
    ensures Grew(n.Add(name, reason), before, name, reasons + [reason])
  {
    AddIs(n, name, reason);
    hide Needed.Why, Needed.Add, Needed.Valid;
    assert (before.Why(name) + reasons) + [reason] == before.Why(name) + (reasons + [reason]);
  }

  lemma AddsNext(n: Needed, before: Needed, r: Row, needs: Needs, k: nat)
    requires n.Valid() && k < |r.triggers| && Adding(n, before, r, needs, k)
    ensures Adding(if needs.Has(r.triggers[k]) then n.Add(r.name, Triggered(r.triggers[k])) else n, before, r, needs, k + 1)
  {
    hide Grew;
    MetNext(r.triggers, needs, k);
    if needs.Has(r.triggers[k]) {
      GrewOne(n, before, r.name, Met(r.triggers[..k], needs), Triggered(r.triggers[k]));
    }
  }

  lemma MetNext(triggers: seq<Trigger>, needs: Needs, k: nat)
    requires k < |triggers|
    ensures var m := Met(triggers[..k], needs);
      Met(triggers[..k + 1], needs) == if needs.Has(triggers[k]) then m + [Triggered(triggers[k])] else m
  {
    assert triggers[..k + 1][..k] == triggers[..k];
  }

  lemma AddIs(n: Needed, name: string, reason: Reason)
    requires n.Valid()
    ensures forall x: string :: n.Add(name, reason).Why(x) == if x == name then n.Why(x) + [reason] else n.Why(x)
    ensures n.Add(name, reason).order == if name in n.order then n.order else n.order + [name]
  {
  }

  // What the first rows give.
  ghost predicate Given(n: Needed, table: seq<Row>, needs: Needs) {
    n.order == InOrder(table, needs) && forall name: string :: n.Why(name) == Reasons(table, needs, name)
  }

  lemma GivenNext(n: Needed, before: Needed, table: seq<Row>, needs: Needs, i: nat)
    requires i < |table| && Given(before, table[..i], needs) && Adding(n, before, table[i], needs, |table[i].triggers|)
    ensures Given(n, table[..i + 1], needs)
  {
    assert table[..i + 1][..i] == table[..i];
    assert table[i].triggers[..|table[i].triggers|] == table[i].triggers;
  }

  lemma NothingGiven(needs: Needs)
    ensures Given(Needed([], map[]), [], needs)
  {
  }

  lemma NothingAdded(n: Needed, r: Row, needs: Needs)
    ensures Adding(n, n, r, needs, 0)
  {
  }

  // The features the product triggers, in the order of the table, each with every trigger it met.
  method AddTriggered(table: seq<Row>, needs: Needs) returns (needed: Needed)
    ensures needed.Valid() && ReasonsHold(table, needs, needed)
    ensures needed.why.Keys == Direct(table, needs)
    ensures Given(needed, table, needs)
  {
    hide Justified, Given, Adding, ReasonsHold;
    needed := Needed([], map[]);
    NoReasons(table, needs);
    NothingGiven(needs);
    for i := 0 to |table|
      invariant needed.Valid() && ReasonsHold(table, needs, needed)
      invariant needed.why.Keys == Direct(table[..i], needs) && Given(needed, table[..i], needs)
    {
      ghost var was, before := needed, needed.why.Keys;
      NothingAdded(was, table[i], needs);
      for k := 0 to |table[i].triggers|
        invariant needed.Valid() && ReasonsHold(table, needs, needed)
        invariant Adding(needed, was, table[i], needs, k)
        invariant needed.why.Keys == before + (if Triggers(table[i].(triggers := table[i].triggers[..k]), needs) then {table[i].name} else {})
      {
        var t := table[i].triggers[k];
        TriggersSnoc(table[i], needs, k);
        AddsNext(needed, was, table[i], needs, k);
        if needs.Has(t) {
          DirectReason(table, needs, needed.why.Keys, i, k);
          AddKeeps(table, needs, needed, table[i].name, Triggered(t));
          needed := needed.Add(table[i].name, Triggered(t));
        }
      }
      assert table[i].triggers[..|table[i].triggers|] == table[i].triggers;
      DirectSnoc(table, needs, i);
      GivenNext(needed, was, table, needs, i);
    }
    assert table[..|table|] == table;
  }

  lemma NoReasons(table: seq<Row>, needs: Needs)
    ensures ReasonsHold(table, needs, Needed([], map[]))
  {
  }

  lemma TriggersSnoc(r: Row, needs: Needs, k: nat)
    requires k < |r.triggers|
    ensures Triggers(r.(triggers := r.triggers[..k + 1]), needs)
            <==> Triggers(r.(triggers := r.triggers[..k]), needs) || needs.Has(r.triggers[k])
  {
    var a, b := r.triggers[..k], r.triggers[..k + 1];
    assert b == a + [r.triggers[k]];
    if q :| 0 <= q < |a| && needs.Has(a[q]) {
      assert needs.Has(b[q]);
    }
    if needs.Has(r.triggers[k]) {
      assert needs.Has(b[k]);
    }
  }

  lemma DirectSnoc(table: seq<Row>, needs: Needs, i: nat)
    requires i < |table|
    ensures Direct(table[..i + 1], needs)
         == Direct(table[..i], needs) + (if Triggers(table[i], needs) then {table[i].name} else {})
  {
    var a, b := table[..i], table[..i + 1];
    forall x | x in Direct(a, needs) ensures x in Direct(b, needs) {
      var k :| 0 <= k < |a| && Triggers(a[k], needs) && a[k].name == x;
      assert b[k] == a[k];
    }
    if Triggers(table[i], needs) {
      assert b[i] == table[i];
    }
    forall x | x in Direct(b, needs) ensures x in Direct(a, needs) || (Triggers(table[i], needs) && x == table[i].name) {
      var k :| 0 <= k < |b| && Triggers(b[k], needs) && b[k].name == x;
      assert k < i ==> a[k] == b[k];
    }
  }

  lemma DirectReason(table: seq<Row>, needs: Needs, needed: set<string>, i: nat, k: nat)
    requires i < |table| && k < |table[i].triggers| && needs.Has(table[i].triggers[k])
    ensures Justified(table, needs, needed, table[i].name, Triggered(table[i].triggers[k]))
  {
    assert table[i].name == table[i].name;
  }

  function Names(table: seq<Row>): set<string> {
    set i | 0 <= i < |table| :: table[i].name
  }

  // What the product gives comes first and stays as it is; a feature it does not give has one reason.
  ghost predicate Kept(table: seq<Row>, needs: Needs, n: Needed) {
    && InOrder(table, needs) <= n.order
    && forall name | name in n.why ::
         if name in Direct(table, needs) then n.why[name] == Reasons(table, needs, name) else |n.why[name]| == 1 && n.why[name][0].RequiredBy?
  }

  // Nothing is in s that some closed set above base does without.
  ghost predicate Below(table: seq<Row>, base: set<string>, s: set<string>) {
    forall t: set<string> | base <= t && Closed(table, t) :: s <= t
  }

  // What the loop over the growing map keeps.
  ghost predicate Growing(table: seq<Row>, needs: Needs, n: Needed) {
    && n.Valid() && ReasonsHold(table, needs, n) && Kept(table, needs, n)
    && Direct(table, needs) <= n.why.Keys <= Names(table)
    && Below(table, Direct(table, needs), n.why.Keys)
  }

  // The requirements of the first i names are all in the map.
  ghost predicate ClosedUpTo(table: seq<Row>, n: Needed, i: nat) {
    forall j, r, k | 0 <= j < i && j < |n.order| && 0 <= r < |table| && table[r].name == n.order[j] && 0 <= k < |table[r].required| ::
      table[r].required[k] in n.why
  }

  method RowOf(table: seq<Row>, name: string) returns (i: nat)
    requires HasRow(table, name)
    ensures i < |table| && table[i].name == name
  {
    i := 0;
    while table[i].name != name
      invariant i < |table|
      invariant forall k | 0 <= k < i :: table[k].name != name
      decreases |table| - i
    {
      i := i + 1;
    }
  }

  lemma RequiredIsBelow(table: seq<Row>, needs: Needs, n: Needed, r: nat, k: nat)
    requires WellFormed(table) && Growing(table, needs, n)
    requires r < |table| && table[r].name in n.why && k < |table[r].required|
    ensures Below(table, Direct(table, needs), n.why.Keys + {table[r].required[k]})
    ensures table[r].required[k] in Names(table)
    ensures Justified(table, needs, n.why.Keys, table[r].required[k], RequiredBy(table[r].name))
  {
    assert RequiresKnown(table, table[r]);
    var q :| 0 <= q < |table| && table[q].name == table[r].required[k];
    forall t: set<string> | Direct(table, needs) <= t && Closed(table, t) ensures n.why.Keys + {table[r].required[k]} <= t {
      assert table[r].name in t;
    }
    assert table[r].required[k] in table[r].required;
  }

  lemma KeptOnward(table: seq<Row>, needs: Needs, n: Needed, name: string, reason: Reason)
    requires Kept(table, needs, n) && Direct(table, needs) <= n.why.Keys && name !in n.why && reason.RequiredBy?
    ensures Kept(table, needs, n.Add(name, reason))
  {
    hide Direct, Reasons, InOrder;
  }

  // One requirement of one feature, added unless the map has it.
  method AddRequired(table: seq<Row>, needs: Needs, n: Needed, r: nat, k: nat) returns (m: Needed, grown: bool)
    requires WellFormed(table) && Growing(table, needs, n)
    requires r < |table| && table[r].name in n.why && k < |table[r].required|
    ensures Growing(table, needs, m) && n.order <= m.order
    ensures m.why.Keys == n.why.Keys + {table[r].required[k]}
    ensures grown <==> m.why.Keys != n.why.Keys
    ensures !grown ==> m == n
  {
    hide Justified, ReasonsHold, Below, Kept;
    RequiredIsBelow(table, needs, n, r, k);
    var name := table[r].required[k];
    if name in n.why {
      assert n.why.Keys + {name} == n.why.Keys;
      return n, false;
    }
    AddKeeps(table, needs, n, name, RequiredBy(table[r].name));
    KeptOnward(table, needs, n, name, RequiredBy(table[r].name));
    m, grown := n.Add(name, RequiredBy(table[r].name)), true;
  }

  // The requirements of one feature.
  method AddAllRequired(table: seq<Row>, needs: Needs, n: Needed, r: nat) returns (m: Needed, grown: bool)
    requires WellFormed(table) && Growing(table, needs, n)
    requires r < |table| && table[r].name in n.why
    ensures Growing(table, needs, m) && n.order <= m.order && n.why.Keys <= m.why.Keys
    ensures forall k | 0 <= k < |table[r].required| :: table[r].required[k] in m.why
    ensures grown <==> m.why.Keys != n.why.Keys
    ensures !grown ==> m == n
  {
    hide Growing, WellFormed;
    m, grown := n, false;
    for k := 0 to |table[r].required|
      invariant Growing(table, needs, m) && n.order <= m.order && n.why.Keys <= m.why.Keys
      invariant forall q | 0 <= q < k :: table[r].required[q] in m.why
      invariant grown <==> m.why.Keys != n.why.Keys
      invariant !grown ==> m == n
    {
      var more;
      m, more := AddRequired(table, needs, m, r, k);
      grown := grown || more;
    }
  }

  lemma SameRow(table: seq<Row>, q: nat, r: nat)
    requires DistinctNames(table) && q < |table| && r < |table| && table[q].name == table[r].name
    ensures q == r
  {
  }

  lemma NamedRow(table: seq<Row>, needs: Needs, n: Needed, i: nat)
    requires Growing(table, needs, n) && i < |n.order|
    ensures n.order[i] in n.why && HasRow(table, n.order[i])
  {
    assert n.order[i] in n.order && n.order[i] in Names(table);
  }

  // A map that has grown leaves fewer names to add.
  lemma FewerLeft(table: seq<Row>, needs: Needs, n: Needed, m: Needed)
    requires Growing(table, needs, n) && Growing(table, needs, m)
    requires n.why.Keys <= m.why.Keys && n.why.Keys != m.why.Keys
    ensures Names(table) - m.why.Keys < Names(table) - n.why.Keys
  {
    var x :| x in m.why.Keys && x !in n.why.Keys;
    assert x in Names(table) - n.why.Keys;
  }

  lemma ClosedUpToNext(table: seq<Row>, n: Needed, m: Needed, i: nat, r: nat)
    requires DistinctNames(table) && ClosedUpTo(table, n, i) && i < |n.order|
    requires n.order <= m.order && n.why.Keys <= m.why.Keys
    requires r < |table| && table[r].name == n.order[i]
    requires forall k | 0 <= k < |table[r].required| :: table[r].required[k] in m.why
    ensures ClosedUpTo(table, m, i + 1)
  {
    forall j, q, k | 0 <= j < i + 1 && j < |m.order| && 0 <= q < |table| && table[q].name == m.order[j] && 0 <= k < |table[q].required|
      ensures table[q].required[k] in m.why
    {
      assert m.order[j] == n.order[j];
      if j == i {
        SameRow(table, q, r);
      }
    }
  }

  // One pass over the map, which also visits what it adds.
  method Pass(table: seq<Row>, needs: Needs, n: Needed) returns (m: Needed, grown: bool)
    requires WellFormed(table) && Growing(table, needs, n)
    ensures Growing(table, needs, m) && n.why.Keys <= m.why.Keys
    ensures ClosedUpTo(table, m, |m.order|)
    ensures grown <==> m.why.Keys != n.why.Keys
  {
    hide ClosedUpTo, Growing, HasRow, Names;
    m, grown := n, false;
    var i := 0;
    NothingClosed(table, n);
    while i < |m.order|
      invariant i <= |m.order|
      invariant Growing(table, needs, m) && n.why.Keys <= m.why.Keys
      invariant ClosedUpTo(table, m, i)
      invariant grown <==> m.why.Keys != n.why.Keys
      decreases Names(table) - m.why.Keys, |m.order| - i
    {
      NamedRow(table, needs, m, i);
      var r := RowOf(table, m.order[i]);
      var next, more := AddAllRequired(table, needs, m, r);
      ClosedUpToNext(table, m, next, i, r);
      if more {
        FewerLeft(table, needs, m, next);
      }
      m, grown, i := next, grown || more, i + 1;
    }
  }

  lemma NothingClosed(table: seq<Row>, n: Needed)
    ensures ClosedUpTo(table, n, 0)
  {
  }

  lemma ClosedAll(table: seq<Row>, needs: Needs, n: Needed)
    requires Growing(table, needs, n) && ClosedUpTo(table, n, |n.order|)
    ensures IsClosure(table, Direct(table, needs), n.why.Keys)
  {
    forall r, k | 0 <= r < |table| && table[r].name in n.why && 0 <= k < |table[r].required|
      ensures table[r].required[k] in n.why
    {
      var j :| 0 <= j < |n.order| && n.order[j] == table[r].name;
    }
  }

  // The loop ends, even where requirements form cycles, with exactly the least set that holds what the product
  // triggers and is closed under what features require; every feature in it has its reasons, and every reason is true.
  method NeededKernelFeatures(table: seq<Row>, needs: Needs) returns (needed: Needed)
    requires WellFormed(table)
    ensures needed.Valid() && ReasonsHold(table, needs, needed) && Kept(table, needs, needed)
    ensures IsClosure(table, Direct(table, needs), needed.why.Keys)
  {
    hide ClosedUpTo, ReasonsHold, IsClosure, Growing, Given, Kept;
    needed := AddTriggered(table, needs);
    DirectIsGrowing(table, needs, needed);
    var grown := true;
    while grown
      invariant Growing(table, needs, needed)
      invariant !grown ==> ClosedUpTo(table, needed, |needed.order|)
      decreases Names(table) - needed.why.Keys, grown
    {
      var next;
      next, grown := Pass(table, needs, needed);
      if grown {
        FewerLeft(table, needs, needed, next);
      }
      needed := next;
    }
    ClosedAll(table, needs, needed);
    GrowingHolds(table, needs, needed);
  }

  lemma DirectIsGrowing(table: seq<Row>, needs: Needs, n: Needed)
    requires n.Valid() && ReasonsHold(table, needs, n) && n.why.Keys == Direct(table, needs) && Given(n, table, needs)
    ensures Growing(table, needs, n)
  {
    hide ReasonsHold, Reasons, InOrder;
    forall name | name in n.why ensures n.why[name] == Reasons(table, needs, name) {
      assert n.Why(name) == n.why[name];
    }
  }

  lemma GrowingHolds(table: seq<Row>, needs: Needs, n: Needed)
    requires Growing(table, needs, n)
    ensures n.Valid() && ReasonsHold(table, needs, n) && Kept(table, needs, n)
  {
    hide ReasonsHold, Kept;
  }

  lemma ClosureIsUnique(table: seq<Row>, base: set<string>, s: set<string>, t: set<string>)
    requires IsClosure(table, base, s) && IsClosure(table, base, t)
    ensures s == t
  {
  }

  /* -------- A board against what is needed -------- */

  predicate HasStorageTrigger(r: Row, model: string) {
    exists k | 0 <= k < |r.triggers| :: r.triggers[k].kind == Storage && r.triggers[k].value == model
  }

  predicate IsStorage(r: Row) {
    exists k | 0 <= k < |r.triggers| :: r.triggers[k].kind == Storage
  }

  lemma StorageTriggers(r: Row, model: string)
    ensures HasStorageTrigger(r, model) <==> Trigger(Storage, model) in r.triggers
    ensures IsStorage(r) <==> exists m :: Trigger(Storage, m) in r.triggers
  {
    if HasStorageTrigger(r, model) {
      var k :| 0 <= k < |r.triggers| && r.triggers[k].kind == Storage && r.triggers[k].value == model;
      assert r.triggers[k] == Trigger(Storage, model);
    }
    if k :| 0 <= k < |r.triggers| && r.triggers[k].kind == Storage {
      assert r.triggers[k] == Trigger(Storage, r.triggers[k].value);
    }
  }

  // The one feature of a storage model, where the table has exactly one.
  ghost predicate IsStorageFeature(table: seq<Row>, model: string, name: string) {
    exists i | 0 <= i < |table| ::
      && table[i].name == name && HasStorageTrigger(table[i], model)
      && forall k | 0 <= k < |table| && HasStorageTrigger(table[k], model) :: k == i
  }

  ghost predicate NamedOnce(table: seq<Row>, names: seq<string>) {
    && "core" !in names
    && (forall i | 0 <= i < |names| :: HasRow(table, names[i]))
    && forall i, j | 0 <= i < j < |names| :: names[i] != names[j]
  }

  ghost predicate RequirementsNamed(table: seq<Row>, names: seq<string>) {
    forall r, k | 0 <= r < |table| && table[r].name in names && 0 <= k < |table[r].required| :: table[r].required[k] in names
  }

  // Exactly one storage feature is named, that of the board's storage model.
  ghost predicate StorageNamed(table: seq<Row>, names: seq<string>, model: string) {
    exists want ::
      && IsStorageFeature(table, model, want) && want in names
      && forall r | 0 <= r < |table| && table[r].name in names && IsStorage(table[r]) :: table[r].name == want
  }

  // What boardKernelFeatures holds a board's list to.
  ghost predicate BoardAccepted(table: seq<Row>, names: seq<string>, model: string) {
    NamedOnce(table, names) && RequirementsNamed(table, names) && StorageNamed(table, names, model)
  }

  method CheckNames(table: seq<Row>, names: seq<string>) returns (ok: bool)
    ensures ok <==> NamedOnce(table, names)
  {
    for i := 0 to |names|
      invariant forall k | 0 <= k < i :: names[k] != "core" && HasRow(table, names[k])
      invariant forall j, k | 0 <= j < k < i :: names[j] != names[k]
    {
      var known := FindRow(table, names[i]);
      if names[i] == "core" || !known || names[i] in names[..i] {
        if names[i] in names[..i] {
          var k :| 0 <= k < i && names[..i][k] == names[i];
          assert names[k] == names[i];
        }
        return false;
      }
      assert forall k | 0 <= k < i :: names[k] == names[..i][k];
    }
    ok := true;
  }

  method CheckRequirements(table: seq<Row>, names: seq<string>) returns (ok: bool)
    requires DistinctNames(table) && NamedOnce(table, names)
    ensures ok <==> RequirementsNamed(table, names)
  {
    for i := 0 to |names|
      invariant forall j, r, k | 0 <= j < i && 0 <= r < |table| && table[r].name == names[j] && 0 <= k < |table[r].required| ::
                  table[r].required[k] in names
    {
      var row := RowOf(table, names[i]);
      for k := 0 to |table[row].required|
        invariant forall q | 0 <= q < k :: table[row].required[q] in names
      {
        if table[row].required[k] !in names {
          assert table[row].name in names;
          return false;
        }
      }
      forall r, k | 0 <= r < |table| && table[r].name == names[i] && 0 <= k < |table[r].required|
        ensures table[r].required[k] in names
      {
        SameRow(table, r, row);
      }
    }
    ok := true;
  }

  // storageFeature: the one row with a storage trigger of this model.
  method StorageFeature(table: seq<Row>, model: string) returns (found: Option<string>)
    ensures found.Some? ==> IsStorageFeature(table, model, found.value)
    ensures found.None? ==> forall want :: !IsStorageFeature(table, model, want)
  {
    found := None;
    ghost var at := 0;
    for i := 0 to |table|
      invariant found.None? ==> forall k | 0 <= k < i :: !HasStorageTrigger(table[k], model)
      invariant found.Some? ==> at < i && table[at].name == found.value && HasStorageTrigger(table[at], model)
      invariant found.Some? ==> forall k | 0 <= k < i && HasStorageTrigger(table[k], model) :: k == at
    {
      if HasStorageTrigger(table[i], model) {
        if found.Some? {
          return None;
        }
        found, at := Some(table[i].name), i;
      }
    }
  }

  lemma StorageFeatureIsUnique(table: seq<Row>, model: string, a: string, b: string)
    requires IsStorageFeature(table, model, a) && IsStorageFeature(table, model, b)
    ensures a == b
  {
  }

  method BoardKernelFeatures(table: seq<Row>, names: seq<string>, model: string) returns (ok: bool)
    requires WellFormed(table)
    ensures ok <==> BoardAccepted(table, names, model)
  {
    ok := CheckNames(table, names);
    if !ok {
      return;
    }
    ok := CheckRequirements(table, names);
    if !ok {
      return;
    }
    var want := StorageFeature(table, model);
    if want.None? || want.value !in names {
      StorageMismatch(table, names, model, want);
      return false;
    }
    for r := 0 to |table|
      invariant forall q | 0 <= q < r && table[q].name in names && IsStorage(table[q]) :: table[q].name == want.value
    {
      if table[r].name in names && IsStorage(table[r]) && table[r].name != want.value {
        OtherStorage(table, names, model, want.value, r);
        return false;
      }
    }
    ok := true;
  }

  lemma StorageMismatch(table: seq<Row>, names: seq<string>, model: string, want: Option<string>)
    requires want.Some? ==> IsStorageFeature(table, model, want.value) && want.value !in names
    requires want.None? ==> forall w :: !IsStorageFeature(table, model, w)
    ensures !StorageNamed(table, names, model)
  {
    if want.Some? {
      forall w | IsStorageFeature(table, model, w) ensures w == want.value {
        StorageFeatureIsUnique(table, model, w, want.value);
      }
    }
  }

  lemma OtherStorage(table: seq<Row>, names: seq<string>, model: string, want: string, r: nat)
    requires IsStorageFeature(table, model, want)
    requires r < |table| && table[r].name in names && IsStorage(table[r]) && table[r].name != want
    ensures !StorageNamed(table, names, model)
  {
    forall w | IsStorageFeature(table, model, w) ensures w == want {
      StorageFeatureIsUnique(table, model, w, want);
    }
  }

  // The one sequence of these names in the order of the map.
  ghost predicate Lacking(board: seq<string>, order: seq<string>, missing: seq<string>) {
    if order == [] then missing == []
    else if order[|order| - 1] in board then Lacking(board, order[..|order| - 1], missing)
    else missing != [] && missing[|missing| - 1] == order[|order| - 1] && Lacking(board, order[..|order| - 1], missing[..|missing| - 1])
  }

  method MissingKernelFeatures(board: seq<string>, needed: Needed) returns (missing: seq<string>)
    requires needed.Valid()
    ensures forall n :: n in missing <==> n in needed.why && n !in board
    ensures Lacking(board, needed.order, missing)
  {
    missing := [];
    for i := 0 to |needed.order|
      invariant forall n :: n in missing <==> n in needed.order[..i] && n !in board
      invariant Lacking(board, needed.order[..i], missing)
    {
      assert needed.order[..i + 1][..i] == needed.order[..i];
      if needed.order[i] !in board {
        missing := missing + [needed.order[i]];
      }
    }
    assert needed.order[..|needed.order|] == needed.order;
  }

  // For a list the board check accepts nothing is missing exactly when the list names every feature the product
  // triggers itself: what those require is then named too.
  lemma NothingMissing(table: seq<Row>, needs: Needs, names: seq<string>, model: string, needed: set<string>)
    requires BoardAccepted(table, names, model) && IsClosure(table, Direct(table, needs), needed)
    ensures (forall n | n in needed :: n in names) <==> (forall n | n in Direct(table, needs) :: n in names)
  {
    var board := set n | n in names;
    if forall n | n in Direct(table, needs) :: n in names {
      assert Closed(table, board);
      assert needed <= board;
    }
  }
}
