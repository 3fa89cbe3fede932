// Decimal numerals as sequences of digit values, most significant first. Debian versions compare runs of
// digits by them, and the boot records carry their generation as one.
module Decimal {
  type digit = d: int | 0 <= d < 10

  function Pow10(n: nat): (p: nat)
    ensures p > 0
  {
    if n == 0 then 1 else 10 * Pow10(n - 1)
  }

  // The number a numeral denotes; the empty numeral denotes 0. Each further digit multiplies by ten.
  function Value(ds: seq<digit>): (v: nat)
    ensures v < Pow10(|ds|)
  {
    if ds == [] then 0 else 10 * Value(ds[..|ds| - 1]) + ds[|ds| - 1]
  }

  // The numeral of n without leading zeros, as printf's %llu and JavaScript's template strings write it.
  function Numeral(n: nat): (ds: seq<digit>)
    ensures |ds| > 0
  {
    if n < 10 then [n] else Numeral(n / 10) + [n % 10]
  }

  function StripZeros(ds: seq<digit>): (r: seq<digit>)
    ensures |r| <= |ds|
  {
    if ds != [] && ds[0] == 0 then StripZeros(ds[1..]) else ds
  }

  lemma ValueSnoc(ds: seq<digit>, d: digit)
    ensures Value(ds + [d]) == 10 * Value(ds) + d
  {
    assert (ds + [d])[..|ds|] == ds;
  }

  lemma {:induction false} ValueNumeral(n: nat)
    ensures Value(Numeral(n)) == n
    ensures n > 0 ==> Numeral(n)[0] != 0
  {
    if n < 10 {
      ValueSnoc([], n);
      assert [n] == [] + [n];
    } else {
      ValueNumeral(n / 10);
      ValueSnoc(Numeral(n / 10), n % 10);
    }
  }

  // A numeral without a leading zero is the numeral of its value.
  lemma {:induction false} NumeralValue(ds: seq<digit>)
    requires |ds| > 0 && ds[0] != 0
    ensures Value(ds) > 0 && Numeral(Value(ds)) == ds
    decreases |ds|
  {
    var init, last := ds[..|ds| - 1], ds[|ds| - 1];
    assert ds == init + [last];
    if init != [] {
      NumeralValue(init);
      assert Value(ds) / 10 == Value(init) && Value(ds) % 10 == last;
    }
  }

  lemma Pow10Monotone(m: nat, n: nat)
    requires m <= n
    ensures Pow10(m) <= Pow10(n)
    decreases n - m
  {
    if m < n {
      Pow10Monotone(m + 1, n);
    }
  }

  lemma {:induction false} NumeralLength(n: nat, k: nat)
    requires k > 0 && n < Pow10(k)
    ensures |Numeral(n)| <= k
    decreases k
  {
    if n >= 10 {
      assert k > 1;
      NumeralLength(n / 10, k - 1);
    }
  }

  lemma {:induction false} LeadingZero(ds: seq<digit>)
    ensures Value([0] + ds) == Value(ds)
  {
    if ds != [] {
      LeadingZero(ds[..|ds| - 1]);
      assert ([0] + ds)[..|ds|] == [0] + ds[..|ds| - 1];
    } else {
      assert ([0] + ds)[..0] == [];
    }
  }

  lemma {:induction false} StripZerosValue(ds: seq<digit>)
    ensures Value(StripZeros(ds)) == Value(ds)
    ensures StripZeros(ds) == [] || StripZeros(ds)[0] != 0
  {
    if ds != [] && ds[0] == 0 {
      StripZerosValue(ds[1..]);
      LeadingZero(ds[1..]);
      assert ds == [0] + ds[1..];
    }
  }

  lemma {:induction false} LeadingDigit(ds: seq<digit>)
    requires ds != [] && ds[0] != 0
    ensures Value(ds) >= Pow10(|ds| - 1)
    decreases |ds|
  {
    if |ds| > 1 {
      LeadingDigit(ds[..|ds| - 1]);
    }
  }

  // Without leading zeros the longer numeral is the larger number.
  lemma LongerIsLarger(x: seq<digit>, y: seq<digit>)
    requires |x| < |y| && y[0] != 0
    ensures Value(x) < Value(y)
  {
    Pow10Monotone(|x|, |y| - 1);
    LeadingDigit(y);
  }

  // Whether x precedes y in the lexicographic order of equally long numerals, as JavaScript's < on strings decides it.
  predicate Precedes(x: seq<digit>, y: seq<digit>)
    requires |x| == |y|
  {
    x != [] && (x[0] < y[0] || (x[0] == y[0] && Precedes(x[1..], y[1..])))
  }

  lemma {:induction false} PrecedesSnoc(x: seq<digit>, y: seq<digit>, d: digit, e: digit)
    requires |x| == |y|
    ensures Precedes(x + [d], y + [e]) <==> Precedes(x, y) || (x == y && d < e)
  {
    if x != [] {
      PrecedesSnoc(x[1..], y[1..], d, e);
      assert (x + [d])[1..] == x[1..] + [d] && (y + [e])[1..] == y[1..] + [e];
      assert x == [x[0]] + x[1..] && y == [y[0]] + y[1..];
    }
  }

  lemma {:induction false} PrecedesIsLess(x: seq<digit>, y: seq<digit>)
    requires |x| == |y|
    ensures Precedes(x, y) <==> Value(x) < Value(y)
    ensures x == y <==> Value(x) == Value(y)
    decreases |x|
  {
    if x != [] {
      var n := |x| - 1;
      PrecedesIsLess(x[..n], y[..n]);
      PrecedesSnoc(x[..n], y[..n], x[n], y[n]);
      assert x == x[..n] + [x[n]] && y == y[..n] + [y[n]];
    }
  }
}
