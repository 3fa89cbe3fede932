// What dpkg's order says of versions as texts (src/image/debian-version.ts, deb-version(7)), in terms of the characters
// themselves: a tilde before the end, the end before letters, letters before other characters, numbers as numbers.
module VersionLaws {
  import opened Wrappers
  import opened Decimal
  import opened DebianVersion

  /* -------- Runs of other characters than digits -------- */

  predicate Numeric(c: char) {
    '0' <= c <= '9'
  }

  predicate Alphabetic(c: char) {
    ('A' <= c <= 'Z') || ('a' <= c <= 'z')
  }

  // Neither a digit nor a letter nor a tilde.
  predicate Punctuation(c: char) {
    !Numeric(c) && !Alphabetic(c) && c != '~'
  }

  // Two parts that are alike up to a character that is no digit in either.
  lemma {:induction false} FirstCharacterDecides(s: string, c: char, t: string, d: char, u: string)
    requires !IsDigit(c) && !IsDigit(d) && Weight(Some(c)) != Weight(Some(d))
    ensures Order(Key(s + [c] + t), Key(s + [d] + u)) == Sign(Weight(Some(c)) - Weight(Some(d)))
    decreases |s|
  {
    hide Order, Weight, DigitRun;
    var a, b := s + [c] + t, s + [d] + u;
    if s == [] {
      KeyText(a);
      KeyText(b);
      OrderStep(Key(a), Key(b));
    } else if IsDigit(s[0]) {
      FirstRunIsNotEmpty(s);
      FirstCharacterDecides(s[DigitRun(s)..], c, t, d, u);
      FirstRunIsAlike(s, c, t, d, u);
    } else {
      FirstCharacterDecides(s[1..], c, t, d, u);
      assert a[1..] == s[1..] + [c] + t && b[1..] == s[1..] + [d] + u;
      KeyText(a);
      KeyText(b);
      OrderStep(Key(a), Key(b));
    }
  }

  lemma FirstRunIsNotEmpty(s: string)
    requires s != [] && IsDigit(s[0])
    ensures DigitRun(s) > 0
  {
  }

  // A first run of digits in common decides nothing.
  lemma FirstRunIsAlike(s: string, c: char, t: string, d: char, u: string)
    requires s != [] && IsDigit(s[0]) && !IsDigit(c) && !IsDigit(d)
    ensures Order(Key(s + [c] + t), Key(s + [d] + u)) == Order(Key(s[DigitRun(s)..] + [c] + t), Key(s[DigitRun(s)..] + [d] + u))
  {
    hide Order, Key, DigitRun, RunValue;
    var a, b, n := s + [c] + t, s + [d] + u, DigitRun(s);
    assert a == s + ([c] + t) && b == s + ([d] + u);
    RunsAgreeBefore(s, [c] + t, [d] + u);
    assert s[n..] + ([c] + t) == s[n..] + [c] + t && s[n..] + ([d] + u) == s[n..] + [d] + u;
    StartsWithDigit(s, a, b);
    NumberStep(a, b);
  }

  lemma StartsWithDigit(s: string, a: string, b: string)
    requires s != [] && IsDigit(s[0]) && s <= a && s <= b
    ensures a != [] && b != [] && IsDigit(a[0]) && IsDigit(b[0])
  {
  }

  lemma RunsAgreeBefore(s: string, w: string, z: string)
    requires w != [] && z != [] && !IsDigit(w[0]) && !IsDigit(z[0])
    ensures var n, a, b := DigitRun(s), s + w, s + z;
      && DigitRun(a) == DigitRun(b) == n && RunValue(a) == RunValue(b)
      && a[n..] == s[n..] + w && b[n..] == s[n..] + z
  {
    DigitRunPrefix(s, w);
    DigitRunPrefix(s, z);
    hide *;
    var n := DigitRun(s);
    CutConcat(s, w, n);
    CutConcat(s, z, n);
    SameRun(s + w, s + z, n);
  }

  // Whatever follows, a part with a tilde appended sorts before the part.
  lemma TildeSortsBefore(s: string, t: string)
    ensures Order(Key(s + "~" + t), Key(s)) == -1
  {
    hide Order, Key;
    AppendedTextDecides(s, '~', t);
  }

  // And with any other character but a digit appended, after it.
  lemma OthersSortAfter(s: string, c: char, t: string)
    requires !Numeric(c) && c != '~'
    ensures Order(Key(s + [c] + t), Key(s)) == 1
  {
    hide Order, Key;
    AppendedTextDecides(s, c, t);
  }

  // A tilde before every other character, a letter before every other that is none, and otherwise by code.
  lemma CharactersInOrder(s: string, c: char, t: string, d: char, u: string)
    requires !Numeric(c) && !Numeric(d) && c != d
    ensures c == '~' ==> Order(Key(s + [c] + t), Key(s + [d] + u)) == -1
    ensures Alphabetic(c) && Punctuation(d) ==> Order(Key(s + [c] + t), Key(s + [d] + u)) == -1
    ensures Alphabetic(c) && Alphabetic(d) ==> (Order(Key(s + [c] + t), Key(s + [d] + u)) == if c < d then -1 else 1)
    ensures Punctuation(c) && Punctuation(d) ==> (Order(Key(s + [c] + t), Key(s + [d] + u)) == if c < d then -1 else 1)
  {
    hide Order, Key;
    FirstCharacterDecides(s, c, t, d, u);
  }

  /* -------- Runs of digits -------- */

  predicate AllNumeric(x: string) {
    forall i | 0 <= i < |x| :: Numeric(x[i])
  }

  // The number a run of digits denotes, digit by digit from the left; none denotes 0.
  function Number(x: string): nat
    requires AllNumeric(x)
  {
    if x == [] then 0 else 10 * Number(x[..|x| - 1]) + (x[|x| - 1] as int - '0' as int)
  }

  lemma {:induction false} NumberIsValue(x: string)
    requires AllNumeric(x)
    ensures (forall c | c in x :: IsDigit(c)) && Number(x) == Value(Digits(x))
  {
    if x != [] {
      NumberIsValue(x[..|x| - 1]);
      assert Digits(x)[..|x| - 1] == Digits(x[..|x| - 1]);
    }
  }

  lemma {:induction false} RunOf(x: string, t: string)
    requires AllNumeric(x) && (t == [] || !Numeric(t[0]))
    ensures DigitRun(x + t) == |x| && RunValue(x + t) == Number(x)
  {
    NumberIsValue(x);
    RunLength(x, t);
    assert (x + t)[..|x|] == x;
  }

  lemma {:induction false} RunLength(x: string, t: string)
    requires AllNumeric(x) && (t == [] || !Numeric(t[0]))
    ensures DigitRun(x + t) == |x|
    decreases |x|
  {
    if x == [] {
      assert x + t == t;
    } else {
      assert (x + t)[1..] == x[1..] + t;
      RunLength(x[1..], t);
    }
  }

  // Two parts alike up to a run of digits, which may be empty in either: the numbers decide, and where they are equal the
  // texts after them. Leading zeros do not matter.
  lemma {:induction false} NumbersDecide(s: string, x: string, t: string, y: string, u: string)
    requires (s == [] || !Numeric(s[|s| - 1])) && AllNumeric(x) && AllNumeric(y)
    requires (t == [] || !Numeric(t[0])) && (u == [] || !Numeric(u[0])) && (x == [] ==> t == []) && (y == [] ==> u == [])
    ensures Number(x) < Number(y) ==> Order(Key(s + (x + t)), Key(s + (y + u))) == -1
    ensures Number(x) == Number(y) ==> Order(Key(s + (x + t)), Key(s + (y + u))) == Order(Key(t), Key(u))
    decreases |s|
  {
    hide Order, Key, Number, RunValue;
    var a, b := s + (x + t), s + (y + u);
    if s == [] {
      assert a == x + t && b == y + u;
      RunOf(x, t);
      RunOf(y, u);
      NumberStep(a, b);
      assert a[|x|..] == t && b[|y|..] == u;
    } else if IsDigit(s[0]) {
      FirstRun(s);
      RunsAgree(s, x + t, y + u);
      NumbersDecide(s[DigitRun(s)..], x, t, y, u);
      hide DigitRun;
      NumberStep(a, b);
    } else {
      NumbersDecide(s[1..], x, t, y, u);
      assert a[1..] == s[1..] + (x + t) && b[1..] == s[1..] + (y + u);
      KeyText(a);
      KeyText(b);
      OrderStep(Key(a), Key(b));
    }
  }

  lemma FirstRun(s: string)
    requires s != [] && IsDigit(s[0]) && !IsDigit(s[|s| - 1])
    ensures 0 < DigitRun(s) < |s| && !IsDigit(s[DigitRun(s)..][|s| - DigitRun(s) - 1])
  {
  }

  // Parts alike beyond their first run of digits have that run alike.
  lemma RunsAgree(s: string, w: string, z: string)
    requires DigitRun(s) < |s|
    ensures var n, a, b := DigitRun(s), s + w, s + z;
      && DigitRun(a) == DigitRun(b) == n && RunValue(a) == RunValue(b)
      && a[n..] == s[n..] + w && b[n..] == s[n..] + z
  {
    RunWithin(s, w);
    RunWithin(s, z);
    hide *;
    var n := DigitRun(s);
    CutConcat(s, w, n);
    CutConcat(s, z, n);
    SameRun(s + w, s + z, n);
  }

  lemma CutConcat(s: string, w: string, n: nat)
    requires n <= |s|
    ensures (s + w)[..n] == s[..n] && (s + w)[n..] == s[n..] + w
  {
  }

  lemma SameRun(a: string, b: string, n: nat)
    requires n <= |a| && n <= |b| && DigitRun(a) == DigitRun(b) == n && a[..n] == b[..n]
    ensures RunValue(a) == RunValue(b)
  {
  }

  lemma {:induction false} RunWithin(s: string, t: string)
    requires DigitRun(s) < |s|
    ensures DigitRun(s + t) == DigitRun(s)
  {
    if IsDigit(s[0]) {
      RunWithin(s[1..], t);
      assert (s + t)[1..] == s[1..] + t;
    }
  }

  /* -------- Whole versions -------- */

  predicate UpstreamText(u: string) {
    u != [] && Numeric(u[0]) && forall i | 0 <= i < |u| :: Numeric(u[i]) || Alphabetic(u[i]) || u[i] == '.' || u[i] == '+' || u[i] == '~' || u[i] == '-'
  }

  predicate RevisionText(r: string) {
    r != [] && forall i | 0 <= i < |r| :: Numeric(r[i]) || Alphabetic(r[i]) || r[i] == '.' || r[i] == '+' || r[i] == '~'
  }

  predicate EpochText(e: string) {
    1 <= |e| <= 9 && AllNumeric(e)
  }

  // [epoch:]upstream[-revision], with dashes in the upstream version only where a revision follows.
  function Spelled(e: Option<string>, u: string, r: Option<string>): string {
    (if e.Some? then e.value + ":" else "") + (u + Suffix(r))
  }

  function Suffix(r: Option<string>): string {
    if r.Some? then "-" + r.value else ""
  }

  predicate Spelling(e: Option<string>, u: string, r: Option<string>) {
    && (e.Some? ==> EpochText(e.value)) && UpstreamText(u) && (r.Some? ==> RevisionText(r.value))
    && (r.None? ==> '-' !in u) && |Spelled(e, u, r)| <= 64
  }

  lemma IndexIs(s: string, c: char, i: nat)
    requires i < |s| && s[i] == c && c !in s[..i]
    ensures IndexOf(s, c) == Some(i)
  {
    var k := IndexOf(s, c).value;
    assert forall j | 0 <= j < i :: s[..i][j] == s[j];
    assert forall j | 0 <= j < k :: s[..k][j] == s[j];
  }

  lemma LastIndexIs(s: string, c: char, i: nat)
    requires i < |s| && s[i] == c && c !in s[i + 1..]
    ensures LastIndexOf(s, c) == Some(i)
  {
    var k := LastIndexOf(s, c).value;
    assert forall j | i < j < |s| :: s[j] == s[i + 1..][j - i - 1];
    assert forall j | k < j < |s| :: s[j] == s[k + 1..][j - k - 1];
  }

  function PartsOf(e: Option<string>, u: string, r: Option<string>): Parts
    requires Spelling(e, u, r)
  {
    Parts(if e.Some? then Number(e.value) else 0, u, if r.Some? then r.value else "")
  }

  lemma Texts(u: string, r: string)
    ensures IsUpstream(u) <==> UpstreamText(u)
    ensures IsRevision(r) <==> RevisionText(r)
    ensures UpstreamText(u) ==> ':' !in u
    ensures RevisionText(r) ==> ':' !in r && '-' !in r
  {
    assert forall i | 0 <= i < |u| :: u[i] in u;
    assert forall i | 0 <= i < |r| :: r[i] in r;
  }

  lemma RevisionSplits(epoch: nat, u: string, r: Option<string>)
    requires UpstreamText(u) && (r.Some? ==> RevisionText(r.value)) && (r.None? ==> '-' !in u)
    ensures SplitRevision(epoch, u + Suffix(r)) == Some(Parts(epoch, u, if r.Some? then r.value else ""))
  {
    hide UpstreamText, RevisionText, IsUpstream, IsRevision;
    var rest := u + Suffix(r);
    if r.Some? {
      Texts(u, r.value);
      assert rest[|u|] == '-' && rest[|u| + 1..] == r.value && rest[..|u|] == u;
      LastIndexIs(rest, '-', |u|);
    } else {
      Texts(u, "");
      assert rest == u;
    }
  }

  lemma RevisionSplit(epoch: nat, rest: string) returns (r: Option<string>)
    requires SplitRevision(epoch, rest).Some?
    ensures var p := SplitRevision(epoch, rest).value;
      && UpstreamText(p.upstream) && (r.Some? ==> RevisionText(r.value)) && (r.None? ==> '-' !in p.upstream)
      && rest == p.upstream + Suffix(r) && p == Parts(epoch, p.upstream, if r.Some? then r.value else "")
  {
    hide UpstreamText, RevisionText, IsUpstream, IsRevision;
    var p := SplitRevision(epoch, rest).value;
    Texts(p.upstream, p.revision);
    match LastIndexOf(rest, '-')
    case None => r := None;
    case Some(dash) => r := Some(rest[dash + 1..]);
  }

  // A text is a version exactly when it is spelled so, and its parts are those spelled.
  lemma SplitIsExact(v: string, p: Parts)
    ensures Split(v) == Some(p) <==> exists e, r :: Spelling(e, p.upstream, r) && v == Spelled(e, p.upstream, r) && p == PartsOf(e, p.upstream, r)
  {
    if Split(v) == Some(p) {
      var e, r := SplitSpells(v);
    }
    if e, r :| Spelling(e, p.upstream, r) && v == Spelled(e, p.upstream, r) && p == PartsOf(e, p.upstream, r) {
      SpelledSplits(e, p.upstream, r);
    }
  }

  lemma SpelledSplits(e: Option<string>, u: string, r: Option<string>)
    requires Spelling(e, u, r)
    ensures Split(Spelled(e, u, r)) == Some(PartsOf(e, u, r))
  {
    RevisionSplits(if e.Some? then Number(e.value) else 0, u, r);
    NoColon(u, r);
    hide UpstreamText, RevisionText, SplitRevision, Number, Suffix;
    if e.Some? {
      assert Spelled(e, u, r) == e.value + ":" + (u + Suffix(r));
      EpochSplits(e.value, u + Suffix(r));
    } else {
      assert Spelled(e, u, r) == u + Suffix(r);
      NoEpochSplits(u + Suffix(r));
    }
  }

  lemma NoColon(u: string, r: Option<string>)
    requires UpstreamText(u) && (r.Some? ==> RevisionText(r.value))
    ensures ':' !in u + Suffix(r) && u + Suffix(r) != []
  {
    Texts(u, if r.Some? then r.value else "");
    hide RevisionText;
  }

  lemma NoEpochSplits(rest: string)
    requires ':' !in rest && 0 < |rest| <= 64
    ensures Split(rest) == SplitRevision(0, rest)
  {
    hide SplitRevision;
  }

  lemma EpochSplits(e: string, rest: string)
    requires EpochText(e) && |e + ":" + rest| <= 64 && ':' !in rest
    ensures Split(e + ":" + rest) == SplitRevision(Number(e), rest)
  {
    hide SplitRevision, Value, Digits;
    var v := e + ":" + rest;
    NumberIsValue(e);
    assert v[..|e|] == e && v[|e|] == ':' && v[|e| + 1..] == rest;
    IndexIs(v, ':', |e|);
    hide IndexOf;
  }

  lemma SplitSpells(v: string) returns (e: Option<string>, r: Option<string>)
    requires Split(v).Some?
    ensures var p := Split(v).value; Spelling(e, p.upstream, r) && v == Spelled(e, p.upstream, r) && p == PartsOf(e, p.upstream, r)
  {
    hide UpstreamText, RevisionText, SplitRevision;
    var p := Split(v).value;
    match IndexOf(v, ':') {
      case None =>
        e := None;
        r := RevisionSplit(0, v);
      case Some(colon) =>
        e := Some(v[..colon]);
        assert forall i | 0 <= i < colon :: v[..colon][i] in v[..colon];
        NumberIsValue(v[..colon]);
        r := RevisionSplit(Value(Digits(v[..colon])), v[colon + 1..]);
        assert v == v[..colon] + ":" + v[colon + 1..];
    }
  }

  // Versions are compared by epoch, as numbers, then by upstream version, then by revision.
  lemma VersionsInOrder(e: Option<string>, u: string, r: Option<string>, f: Option<string>, x: string, q: Option<string>)
    requires Spelling(e, u, r) && Spelling(f, x, q)
    ensures var a, b, o := PartsOf(e, u, r), PartsOf(f, x, q), VersionOrder(Spelled(e, u, r), Spelled(f, x, q));
      && (a.epoch < b.epoch ==> o == Some(-1)) && (a.epoch > b.epoch ==> o == Some(1))
      && (a.epoch == b.epoch && Order(Key(u), Key(x)) != 0 ==> o == Some(Order(Key(u), Key(x))))
      && (a.epoch == b.epoch && Order(Key(u), Key(x)) == 0 ==> o == Some(Order(Key(a.revision), Key(b.revision))))
  {
    hide Split, Spelling, Order, Key, Number, Spelled;
    SpelledSplits(e, u, r);
    SpelledSplits(f, x, q);
  }

  // So a version with a tilde appended to its upstream version sorts before it, whatever follows and with any revision;
  // and with a letter, a dot or a plus appended, after it.
  lemma AppendedToVersion(e: Option<string>, s: string, r: Option<string>, c: char, t: string, q: Option<string>)
    requires Spelling(e, s, r) && Spelling(e, s + [c] + t, q) && !Numeric(c)
    ensures VersionOrder(Spelled(e, s + [c] + t, q), Spelled(e, s, r)) == Some(if c == '~' then -1 else 1)
  {
    hide Order, Key, Spelling, PartsOf;
    SameEpoch(e, s, r, s + [c] + t, q);
    VersionsInOrder(e, s + [c] + t, q, e, s, r);
    if c == '~' {
      TildeSortsBefore(s, t);
    } else {
      OthersSortAfter(s, c, t);
    }
  }

  lemma SameEpoch(e: Option<string>, u: string, r: Option<string>, x: string, q: Option<string>)
    requires Spelling(e, u, r) && Spelling(e, x, q)
    ensures PartsOf(e, u, r).epoch == PartsOf(e, x, q).epoch
  {
  }

  // And so for a revision.
  lemma AppendedToRevision(e: Option<string>, u: string, r: string, c: char, t: string)
    requires Spelling(e, u, Some(r)) && Spelling(e, u, Some(r + [c] + t)) && !Numeric(c)
    ensures VersionOrder(Spelled(e, u, Some(r + [c] + t)), Spelled(e, u, Some(r))) == Some(if c == '~' then -1 else 1)
  {
    hide Order, Key, Spelling;
    VersionsInOrder(e, u, Some(r + [c] + t), e, u, Some(r));
    OrderReflexive(Key(u));
    if c == '~' {
      TildeSortsBefore(r, t);
    } else {
      OthersSortAfter(r, c, t);
    }
  }
}
