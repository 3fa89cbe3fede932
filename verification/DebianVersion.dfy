// Debian package versions in dpkg's order (src/image/debian-version.ts). The two-cursor loop of ComparePart is proved
// to compare the zero-padded keys of its arguments, and the order of the keys is proved a total preorder.
module DebianVersion {
  import opened Wrappers
  import opened Decimal

  const MAX_LEN := 64

  datatype Parts = Parts(epoch: nat, upstream: string, revision: string)

  predicate IsDigit(c: char) {
    '0' <= c <= '9'
  }

  predicate IsLetter(c: char) {
    'A' <= c <= 'Z' || 'a' <= c <= 'z'
  }

  predicate IsUpstreamChar(c: char) {
    IsDigit(c) || IsLetter(c) || c in ".+~-"
  }

  predicate IsRevisionChar(c: char) {
    IsDigit(c) || IsLetter(c) || c in ".+~"
  }

  function DigitValue(c: char): digit
    requires IsDigit(c)
  {
    c as int - '0' as int
  }

  // The digit values of a string of digits.
  function Digits(s: string): (ds: seq<digit>)
    requires forall c | c in s :: IsDigit(c)
    ensures |ds| == |s|
  {
    seq<digit>(|s|, i requires 0 <= i < |s| => (assert s[i] in s; DigitValue(s[i])))
  }

  function IndexOf(s: string, c: char): (i: Option<nat>)
    ensures i.None? ==> c !in s
    ensures i.Some? ==> i.value < |s| && s[i.value] == c && c !in s[..i.value]
  {
    if s == [] then None
    else if s[0] == c then Some(0)
    else
      match IndexOf(s[1..], c)
      case None => None
      case Some(k) =>
        assert s[..k + 1] == [s[0]] + s[1..][..k];
        Some(k + 1)
  }

  function LastIndexOf(s: string, c: char): (i: Option<nat>)
    ensures i.None? ==> c !in s
    ensures i.Some? ==> i.value < |s| && s[i.value] == c && c !in s[i.value + 1..]
  {
    if s == [] then None
    else
      var n := |s| - 1;
      assert s == s[..n] + [s[n]];
      if s[n] == c then Some(n)
      else
        match LastIndexOf(s[..n], c)
        case None => None
        case Some(k) =>
          assert s[k + 1..] == s[..n][k + 1..] + [s[n]];
          Some(k)
  }

  predicate IsUpstream(s: string) {
    s != [] && IsDigit(s[0]) && forall c | c in s :: IsUpstreamChar(c)
  }

  predicate IsRevision(s: string) {
    s != [] && forall c | c in s :: IsRevisionChar(c)
  }

  function SplitRevision(epoch: nat, rest: string): Option<Parts> {
    match LastIndexOf(rest, '-')
    case None => if IsUpstream(rest) then Some(Parts(epoch, rest, "")) else None
    case Some(dash) =>
      if IsUpstream(rest[..dash]) && IsRevision(rest[dash + 1..])
      then Some(Parts(epoch, rest[..dash], rest[dash + 1..]))
      else None
  }

  function Split(version: string): Option<Parts> {
    if |version| == 0 || |version| > MAX_LEN then None
    else
      match IndexOf(version, ':')
      case None => SplitRevision(0, version)
      case Some(colon) =>
        var e := version[..colon];
        if 1 <= |e| <= 9 && forall c | c in e :: IsDigit(c)
        then SplitRevision(Value(Digits(e)), version[colon + 1..])
        else None
  }

  // dpkg's weight of one character of a non-digit run; None is the end of the run.
  function Weight(c: Option<char>): int {
    match c
    case None => 0
    case Some(ch) =>
      if ch == '~' then -1
      else if IsLetter(ch) then ch as int
      else ch as int + 256
  }

  /* -------- The reference order -------- */

  function DigitRun(s: string): (n: nat)
    ensures n <= |s|
    ensures forall i | 0 <= i < n :: IsDigit(s[i])
    ensures n < |s| ==> !IsDigit(s[n])
  {
    if s == [] || !IsDigit(s[0]) then 0 else 1 + DigitRun(s[1..])
  }

  function RunValue(s: string): nat {
    var n := DigitRun(s);
    Value(Digits(s[..n]))
  }

  // The key of a part: the weights of each non-digit run, a 0 for its end, the number of the digit run after it, and so
  // on. A part that has ended continues with empty runs and the number 0, so keys are compared as if padded with zeros.
  function Key(s: string): seq<int> {
    if s == [] then []
    else if IsDigit(s[0]) then [0, RunValue(s)] + Key(s[DigitRun(s)..])
    else [Weight(Some(s[0]))] + Key(s[1..])
  }

  function At(k: seq<int>, i: nat): int {
    if i < |k| then k[i] else 0
  }

  function Rest(k: seq<int>): seq<int> {
    if k == [] then [] else k[1..]
  }

  // The sign of the first difference of two keys padded with zeros.
  function Order(k: seq<int>, l: seq<int>): (r: int)
    ensures -1 <= r <= 1
    decreases |k| + |l|
  {
    if k == [] && l == [] then 0
    else if At(k, 0) != At(l, 0) then Sign(At(k, 0) - At(l, 0))
    else Order(Rest(k), Rest(l))
  }

  // JavaScript's || on the results of comparisons.
  function Then(first: int, second: int): int {
    if first != 0 then first else second
  }

  function PartsOrder(x: Parts, y: Parts): int {
    Then(Sign(x.epoch - y.epoch), Then(Order(Key(x.upstream), Key(y.upstream)), Order(Key(x.revision), Key(y.revision))))
  }

  function VersionOrder(a: string, b: string): Option<int> {
    match (Split(a), Split(b))
    case (Some(x), Some(y)) => Some(PartsOrder(x, y))
    case _ => None
  }

  predicate Valid(version: string) {
    Split(version).Some?
  }

  /* -------- The order is a total preorder -------- */

  lemma {:induction false} OrderAntisymmetric(k: seq<int>, l: seq<int>)
    ensures Order(k, l) == -Order(l, k)
    decreases |k| + |l|
  {
    if !(k == [] && l == []) && At(k, 0) == At(l, 0) {
      OrderAntisymmetric(Rest(k), Rest(l));
    }
  }

  lemma {:induction false} OrderReflexive(k: seq<int>)
    ensures Order(k, k) == 0
  {
    if k != [] {
      OrderReflexive(Rest(k));
    }
  }

  lemma {:induction false} OrderTransitive(k: seq<int>, l: seq<int>, m: seq<int>)
    requires Order(k, l) <= 0 && Order(l, m) <= 0
    ensures Order(k, m) <= 0
    ensures Order(k, m) == 0 <==> Order(k, l) == 0 && Order(l, m) == 0
    decreases |k| + |l| + |m|
  {
    if At(k, 0) == At(l, 0) == At(m, 0) && !(k == [] && l == [] && m == []) {
      OrderTransitive(Rest(k), Rest(l), Rest(m));
    }
  }

  // Keys are equivalent exactly when they agree at every index once padded with zeros.
  lemma {:induction false} OrderZeroIsAgreement(k: seq<int>, l: seq<int>)
    ensures Order(k, l) == 0 <==> forall i: nat :: At(k, i) == At(l, i)
    decreases |k| + |l|
  {
    if k == [] && l == [] {
    } else if At(k, 0) != At(l, 0) {
    } else {
      OrderZeroIsAgreement(Rest(k), Rest(l));
      assert forall i: nat :: At(Rest(k), i) == At(k, i + 1) && At(Rest(l), i) == At(l, i + 1);
      if forall i: nat :: At(Rest(k), i) == At(Rest(l), i) {
        forall i: nat ensures At(k, i) == At(l, i) {
          if i > 0 {
            assert At(Rest(k), i - 1) == At(Rest(l), i - 1);
          }
        }
      }
    }
  }

  // Otherwise the sign is that of the first index at which they differ.
  lemma {:induction false} OrderIsFirstDifference(k: seq<int>, l: seq<int>, n: nat)
    requires forall i: nat | i < n :: At(k, i) == At(l, i)
    requires At(k, n) != At(l, n)
    ensures Order(k, l) == Sign(At(k, n) - At(l, n))
    decreases n
  {
    if n > 0 {
      forall i: nat | i < n - 1 ensures At(Rest(k), i) == At(Rest(l), i) {
        assert At(k, i + 1) == At(l, i + 1);
      }
      assert At(Rest(k), n - 1) == At(k, n) && At(Rest(l), n - 1) == At(l, n);
      assert At(k, 0) == At(l, 0);
      OrderIsFirstDifference(Rest(k), Rest(l), n - 1);
    }
  }

  // On all valid versions the comparison is reflexive, antisymmetric in sign, total and transitive, and versions that
  // compare equal are interchangeable in every comparison.
  lemma VersionOrderIsTotalPreorder(a: string, b: string, c: string)
    requires Valid(a) && Valid(b) && Valid(c)
    ensures VersionOrder(a, a) == Some(0)
    ensures VersionOrder(a, b) == Some(-VersionOrder(b, a).value)
    ensures VersionOrder(a, b).value <= 0 && VersionOrder(b, c).value <= 0 ==> VersionOrder(a, c).value <= 0
    ensures VersionOrder(a, b).value < 0 && VersionOrder(b, c).value <= 0 ==> VersionOrder(a, c).value < 0
    ensures VersionOrder(a, b).value <= 0 && VersionOrder(b, c).value < 0 ==> VersionOrder(a, c).value < 0
    ensures -1 <= VersionOrder(a, b).value <= 1
    ensures VersionOrder(a, b).value == 0 ==> VersionOrder(a, c) == VersionOrder(b, c)
  {
    hide *;
    var ab, bc, ac := Orders(a, b, c);
    Coherence(ab, bc, ac);
  }

  lemma Orders(a: string, b: string, c: string) returns (ab: int, bc: int, ac: int)
    requires Valid(a) && Valid(b) && Valid(c)
    ensures VersionOrder(a, a) == Some(0) && VersionOrder(a, b) == Some(ab) && VersionOrder(b, a) == Some(-ab)
    ensures VersionOrder(b, c) == Some(bc) && VersionOrder(a, c) == Some(ac) && Coherent(ab, bc, ac)
  {
    hide Split, PartsOrder, Coherent;
    var x, y, z := Split(a).value, Split(b).value, Split(c).value;
    PartsPreorder(x, y, z);
    ab, bc, ac := PartsOrder(x, y), PartsOrder(y, z), PartsOrder(x, z);
  }

  lemma Coherence(ab: int, bc: int, ac: int)
    requires Coherent(ab, bc, ac)
    ensures ab <= 0 && bc <= 0 ==> ac <= 0
    ensures ab < 0 && bc <= 0 ==> ac < 0
    ensures ab <= 0 && bc < 0 ==> ac < 0
    ensures ab == 0 ==> ac == bc
    ensures -1 <= ab <= 1
  {
  }

  lemma PartsPreorder(x: Parts, y: Parts, z: Parts)
    ensures PartsOrder(x, x) == 0
    ensures PartsOrder(x, y) == -PartsOrder(y, x)
    ensures Coherent(PartsOrder(x, y), PartsOrder(y, z), PartsOrder(x, z))
  {
    KeyOrders(x.upstream, y.upstream, z.upstream);
    KeyOrders(x.revision, y.revision, z.revision);
    var e, u, r := (Sign(x.epoch - y.epoch), Sign(y.epoch - z.epoch), Sign(x.epoch - z.epoch)),
      (Order(Key(x.upstream), Key(y.upstream)), Order(Key(y.upstream), Key(z.upstream)), Order(Key(x.upstream), Key(z.upstream))),
      (Order(Key(x.revision), Key(y.revision)), Order(Key(y.revision), Key(z.revision)), Order(Key(x.revision), Key(z.revision)));
    ThenCoherent(u.0, u.1, u.2, r.0, r.1, r.2);
    ThenCoherent(e.0, e.1, e.2, Then(u.0, r.0), Then(u.1, r.1), Then(u.2, r.2));
  }

  lemma ThenCoherent(ab: int, bc: int, ac: int, ab': int, bc': int, ac': int)
    requires Coherent(ab, bc, ac) && Coherent(ab', bc', ac')
    ensures Coherent(Then(ab, ab'), Then(bc, bc'), Then(ac, ac'))
  {
  }

  // What the three comparisons of three values owe one another; Then keeps it.
  predicate Coherent(ab: int, bc: int, ac: int) {
    && -1 <= ab <= 1 && -1 <= bc <= 1 && -1 <= ac <= 1
    && (ab <= 0 && bc <= 0 ==> ac <= 0)
    && (ab >= 0 && bc >= 0 ==> ac >= 0)
    && (ab == 0 ==> ac == bc)
    && (bc == 0 ==> ac == ab)
    && (ab != 0 && ab == bc ==> ac == ab)
  }

  lemma KeyOrders(a: string, b: string, c: string)
    ensures Order(Key(a), Key(a)) == 0
    ensures Order(Key(a), Key(b)) == -Order(Key(b), Key(a))
    ensures Coherent(Order(Key(a), Key(b)), Order(Key(b), Key(c)), Order(Key(a), Key(c)))
  {
    var k, l, m := Key(a), Key(b), Key(c);
    OrderReflexive(k);
    OrderAntisymmetric(k, l);
    OrderAntisymmetric(k, m);
    OrderAntisymmetric(l, m);
    if Order(k, l) <= 0 && Order(l, m) <= 0 {
      OrderTransitive(k, l, m);
    }
    if Order(k, l) >= 0 && Order(l, m) >= 0 {
      OrderTransitive(m, l, k);
    }
  }

  // Whatever follows, a non-digit character appended to a part moves it by its own weight: `~` before the part it is
  // appended to, anything else after it.
  lemma {:induction false} AppendedTextDecides(s: string, c: char, t: string)
    requires !IsDigit(c)
    ensures Order(Key(s + [c] + t), Key(s)) == Sign(Weight(Some(c)))
    decreases |s|
  {
    hide Order, Weight;
    var u := s + [c] + t;
    if s == [] {
      KeyText(u);
      OrderStep(Key(u), []);
    } else if IsDigit(s[0]) {
      var n := DigitRun(s);
      DigitRunPrefix(s, [c] + t);
      assert u == s + ([c] + t);
      assert u[..n] == s[..n];
      AppendedTextDecides(s[n..], c, t);
      assert u[n..] == s[n..] + [c] + t;
      NumberStep(u, s);
    } else {
      AppendedTextDecides(s[1..], c, t);
      assert u[1..] == s[1..] + [c] + t;
      KeyText(s);
      KeyText(u);
      OrderStep(Key(u), Key(s));
    }
  }

  lemma {:induction false} DigitRunPrefix(s: string, t: string)
    requires t != [] && !IsDigit(t[0])
    ensures DigitRun(s + t) == DigitRun(s)
  {
    if s != [] && IsDigit(s[0]) {
      DigitRunPrefix(s[1..], t);
      assert (s + t)[1..] == s[1..] + t;
    }
  }

  // requirementHolds of src/image/components.ts for a provided package: the bounds a requirement states.
  predicate Accepts(min: Option<string>, max: Option<string>, version: string) {
    && (min.Some? ==> var o := VersionOrder(version, min.value); o.Some? && o.value >= 0)
    && (max.Some? ==> var o := VersionOrder(version, max.value); o.Some? && o.value <= 0)
  }

  // The bounds are inclusive: a version is refused exactly where a bound compares with nothing or lies beyond it.
  lemma AcceptsExactly(min: Option<string>, max: Option<string>, version: string)
    ensures Accepts(min, max, version)
      <==> (min.Some? ==> NotBefore(version, min.value)) && (max.Some? ==> NotBefore(max.value, version))
  {
    hide VersionOrder, Valid;
    if min.Some? {
      OrderOfBound(version, min.value);
    }
    if max.Some? {
      OrderOfBound(version, max.value);
      OrderOfBound(max.value, version);
    }
  }

  predicate NotBefore(a: string, b: string) {
    Valid(a) && Valid(b) && (VersionOrder(a, b) == Some(0) || VersionOrder(a, b) == Some(1))
  }

  lemma OrderOfBound(version: string, bound: string)
    ensures VersionOrder(version, bound).Some? <==> Valid(version) && Valid(bound)
    ensures VersionOrder(version, bound).Some? ==>
      var o := VersionOrder(version, bound).value; -1 <= o <= 1 && VersionOrder(bound, version) == Some(-o)
  {
    if Valid(version) && Valid(bound) {
      VersionOrderIsTotalPreorder(version, bound, version);
      VersionOrderIsTotalPreorder(bound, version, bound);
    }
    hide Valid, Order, Key, Split;
  }

  // A requirement that accepts two versions accepts every version between them.
  lemma AcceptedVersionsAreConvex(min: Option<string>, max: Option<string>, low: string, version: string, high: string)
    requires Accepts(min, max, low) && Accepts(min, max, high)
    requires Valid(low) && Valid(version) && Valid(high)
    requires VersionOrder(low, version).value <= 0 && VersionOrder(version, high).value <= 0
    ensures Accepts(min, max, version)
  {
    if min.Some? {
      VersionOrderIsTotalPreorder(min.value, low, version);
      VersionOrderIsTotalPreorder(version, min.value, low);
    }
    if max.Some? {
      VersionOrderIsTotalPreorder(version, high, max.value);
    }
  }

  /* -------- The loop computes the order -------- */

  // Dropping one character of a non-digit run drops one element of the key.
  lemma KeyText(s: string)
    requires s != [] && !IsDigit(s[0])
    ensures At(Key(s), 0) == Weight(Some(s[0])) && Weight(Some(s[0])) != 0
    ensures Rest(Key(s)) == Key(s[1..])
  {
  }

  // Where no non-digit run is left, the key continues with its end, the number of the digit run and the rest.
  lemma KeyNumber(s: string)
    requires s == [] || IsDigit(s[0])
    ensures At(Key(s), 0) == 0 && At(Key(s), 1) == RunValue(s)
    ensures Rest(Rest(Key(s))) == Key(s[DigitRun(s)..])
  {
    if s == [] {
      assert Digits(s[..0]) == [];
    }
  }

  lemma OrderStep(k: seq<int>, l: seq<int>)
    ensures At(k, 0) != At(l, 0) ==> Order(k, l) == Sign(At(k, 0) - At(l, 0))
    ensures At(k, 0) == At(l, 0) ==> Order(k, l) == Order(Rest(k), Rest(l))
  {
    if k == [] && l == [] {
      assert Order(Rest(k), Rest(l)) == 0;
    }
  }

  // Where both cursors stand after their non-digit runs, comparing the stripped digit runs by length and then as
  // strings is comparing their numbers.
  lemma NumberStep(s: string, t: string)
    requires s == [] || IsDigit(s[0])
    requires t == [] || IsDigit(t[0])
    ensures RunValue(s) != RunValue(t) ==> Order(Key(s), Key(t)) == Sign(RunValue(s) - RunValue(t))
    ensures RunValue(s) == RunValue(t) ==> Order(Key(s), Key(t)) == Order(Key(s[DigitRun(s)..]), Key(t[DigitRun(t)..]))
  {
    var k, l := Key(s), Key(t);
    KeyNumber(s);
    KeyNumber(t);
    OrderStep(k, l);
    OrderStep(Rest(k), Rest(l));
    assert At(Rest(k), 0) == At(k, 1) && At(Rest(l), 0) == At(l, 1);
  }

  function Stripped(s: string): seq<digit> {
    StripZeros(Digits(s[..DigitRun(s)]))
  }

  lemma CompareStripped(s: string, t: string)
    ensures |Stripped(s)| != |Stripped(t)| ==> Sign(|Stripped(s)| - |Stripped(t)|) == Sign(RunValue(s) - RunValue(t))
    ensures |Stripped(s)| == |Stripped(t)| ==>
              (Precedes(Stripped(s), Stripped(t)) <==> RunValue(s) < RunValue(t))
              && (Stripped(s) == Stripped(t) <==> RunValue(s) == RunValue(t))
  {
    var x, y := Stripped(s), Stripped(t);
    StripZerosValue(Digits(s[..DigitRun(s)]));
    StripZerosValue(Digits(t[..DigitRun(t)]));
    if |x| < |y| {
      LongerIsLarger(x, y);
    } else if |y| < |x| {
      LongerIsLarger(y, x);
    } else {
      PrecedesIsLess(x, y);
    }
  }

  method DigitRunEnd(a: string, i: nat) returns (ni: nat)
    requires i <= |a|
    ensures i <= ni <= |a| && ni == i + DigitRun(a[i..])
  {
    ni := i;
    while ni < |a| && IsDigit(a[ni])
      invariant i <= ni <= |a|
      invariant i + DigitRun(a[i..]) == ni + DigitRun(a[ni..])
    {
      assert a[ni..][1..] == a[ni + 1..];
      ni := ni + 1;
    }
  }

  predicate InText(a: string, i: nat) {
    i < |a| && !IsDigit(a[i])
  }

  function WeightAt(a: string, i: nat): int {
    Weight(if InText(a, i) then Some(a[i]) else None)
  }

  lemma KeyHead(a: string, i: nat)
    requires i <= |a|
    ensures At(Key(a[i..]), 0) == WeightAt(a, i)
    ensures InText(a, i) <==> WeightAt(a, i) != 0
    ensures InText(a, i) ==> Rest(Key(a[i..])) == Key(a[i + 1..])
  {
    if InText(a, i) {
      KeyText(a[i..]);
      assert a[i..][1..] == a[i + 1..];
    } else {
      KeyNumber(a[i..]);
    }
  }

  // One round of the inner loop: at least one cursor is in a non-digit run.
  lemma TextStep(a: string, b: string, i: nat, j: nat)
    requires i <= |a| && j <= |b|
    requires InText(a, i) || InText(b, j)
    ensures WeightAt(a, i) != WeightAt(b, j) ==> Order(Key(a[i..]), Key(b[j..])) == Sign(WeightAt(a, i) - WeightAt(b, j))
    ensures WeightAt(a, i) == WeightAt(b, j) ==>
              InText(a, i) && InText(b, j) && Order(Key(a[i..]), Key(b[j..])) == Order(Key(a[i + 1..]), Key(b[j + 1..]))
  {
    KeyHead(a, i);
    KeyHead(b, j);
    OrderStep(Key(a[i..]), Key(b[j..]));
  }

  // The inner loop: both cursors over their non-digit runs, up to the first difference in weight.
  method CompareText(a: string, b: string, i0: nat, j0: nat) returns (diff: int, i: nat, j: nat)
    requires i0 <= |a| && j0 <= |b|
    ensures i0 <= i <= |a| && j0 <= j <= |b|
    ensures diff != 0 ==> Sign(diff) == Order(Key(a[i0..]), Key(b[j0..]))
    ensures diff == 0 ==> Order(Key(a[i..]), Key(b[j..])) == Order(Key(a[i0..]), Key(b[j0..]))
    ensures diff == 0 ==> (i < |a| ==> IsDigit(a[i])) && (j < |b| ==> IsDigit(b[j]))
  {
    hide Key, Order, Weight;
    i, j := i0, j0;
    while true
      invariant i0 <= i <= |a| && j0 <= j <= |b|
      invariant Order(Key(a[i..]), Key(b[j..])) == Order(Key(a[i0..]), Key(b[j0..]))
      decreases |a| - i + |b| - j
    {
      var xText, yText := InText(a, i), InText(b, j);
      if !xText && !yText {
        return 0, i, j;
      }
      var wx, wy := WeightAt(a, i), WeightAt(b, j);
      TextStep(a, b, i, j);
      if wx != wy {
        return wx - wy, i, j;
      }
      if xText {
        i := i + 1;
      }
      if yText {
        j := j + 1;
      }
    }
  }

  // The digit runs at both cursors, by stripped length and then as strings; the cursors after them.
  method CompareNumbers(a: string, b: string, i: nat, j: nat) returns (diff: int, ni: nat, nj: nat)
    requires i <= |a| && (i < |a| ==> IsDigit(a[i]))
    requires j <= |b| && (j < |b| ==> IsDigit(b[j]))
    ensures ni <= |a| && nj <= |b|
    ensures ni == i + DigitRun(a[i..]) && nj == j + DigitRun(b[j..])
    ensures diff != 0 ==> Sign(diff) == Order(Key(a[i..]), Key(b[j..]))
    ensures diff == 0 ==> Order(Key(a[ni..]), Key(b[nj..])) == Order(Key(a[i..]), Key(b[j..]))
  {
    ni := DigitRunEnd(a, i);
    nj := DigitRunEnd(b, j);
    ghost var s, t := a[i..], b[j..];
    assert s[..ni - i] == a[i..ni] && t[..nj - j] == b[j..nj];
    assert s[ni - i..] == a[ni..] && t[nj - j..] == b[nj..];
    var da, db := StripZeros(Digits(a[i..ni])), StripZeros(Digits(b[j..nj]));
    CompareStripped(s, t);
    NumberStep(s, t);
    diff := if |da| != |db| then |da| - |db| else if da != db then (if Precedes(da, db) then -1 else 1) else 0;
  }

  method ComparePart(a: string, b: string) returns (r: int)
    ensures Sign(r) == Order(Key(a), Key(b))
  {
    var i, j := 0, 0;
    assert a[0..] == a && b[0..] == b;
    while i < |a| || j < |b|
      invariant 0 <= i <= |a| && 0 <= j <= |b|
      invariant Order(Key(a[i..]), Key(b[j..])) == Order(Key(a), Key(b))
      decreases |a| - i + |b| - j
    {
      var ti, tj;
      r, ti, tj := CompareText(a, b, i, j);
      if r != 0 {
        return;
      }
      var ni, nj;
      r, ni, nj := CompareNumbers(a, b, ti, tj);
      if r != 0 {
        return;
      }
      i, j := ni, nj;
    }
    r := 0;
  }

  method CompareDebianVersions(a: string, b: string) returns (r: Option<int>)
    ensures r == VersionOrder(a, b)
  {
    var x, y := Split(a), Split(b);
    if x.None? || y.None? {
      return None;
    }
    var c := x.value.epoch - y.value.epoch;
    if c == 0 {
      c := ComparePart(x.value.upstream, y.value.upstream);
    }
    if c == 0 {
      c := ComparePart(x.value.revision, y.value.revision);
    }
    r := Some(Sign(c));
  }
}
