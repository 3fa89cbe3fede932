// Repeated application of a function, and the one law about it the CRC proofs need, free of bit-vectors.
module Iteration {
  function Iterate<T>(f: T -> T, x: T, n: nat): T {
    if n == 0 then x else f(Iterate(f, x, n - 1))
  }

  lemma {:induction false} IterateAdd<T>(f: T -> T, x: T, m: nat, n: nat)
    ensures Iterate(f, x, m + n) == Iterate(f, Iterate(f, x, m), n)
  {
    if n > 0 {
      IterateAdd(f, x, m, n - 1);
    }
  }

  lemma {:induction false} IterateInverse<T(!new)>(f: T -> T, g: T -> T, x: T, n: nat)
    requires forall y :: g(f(y)) == y
    ensures Iterate(g, Iterate(f, x, n), n) == x
  {
    if n > 0 {
      IterateAdd(g, Iterate(f, x, n), 1, n - 1);
      assert Iterate(g, Iterate(f, x, n), 1) == g(Iterate(g, Iterate(f, x, n), 0));
      IterateInverse(f, g, x, n - 1);
    }
  }

  // One f takes away one doubling of whatever fits.
  ghost predicate Delays<T(!new)>(f: T -> T, add: (T, T) -> T, double: T -> T, fits: T -> bool) {
    forall x, y :: fits(y) ==> f(add(x, double(y))) == add(f(x), y)
  }

  ghost predicate FitsFor<T>(double: T -> T, fits: T -> bool, y: T, n: nat) {
    forall k: nat :: k < n ==> fits(Iterate(double, y, k))
  }

  // What is added after n applications may be added before them, doubled n times.
  lemma {:induction false} IterateDelays<T(!new)>(f: T -> T, add: (T, T) -> T, double: T -> T, fits: T -> bool, x: T, y: T, n: nat)
    requires Delays(f, add, double, fits)
    requires FitsFor(double, fits, y, n)
    ensures add(Iterate(f, x, n), y) == Iterate(f, add(x, Iterate(double, y, n)), n)
  {
    if n > 0 {
      forall k: nat | k < n - 1 ensures fits(Iterate(double, double(y), k)) {
        IterateFront(double, y, k);
        assert fits(Iterate(double, y, k + 1));
      }
      IterateFront(double, y, n - 1);
      IterateDelays(f, add, double, fits, x, double(y), n - 1);
      assert fits(Iterate(double, y, 0));
    }
  }

  lemma IterateFront<T>(f: T -> T, x: T, n: nat)
    ensures Iterate(f, x, n + 1) == Iterate(f, f(x), n)
  {
    IterateAdd(f, x, 1, n);
    assert Iterate(f, x, 1) == f(Iterate(f, x, 0));
  }

  // A round "add an input, then apply f r times" after n applications is n + r applications with the input added first.
  lemma Round<T(!new)>(f: T -> T, add: (T, T) -> T, double: T -> T, fits: T -> bool, u: T, c: T, n: nat, r: nat)
    requires Delays(f, add, double, fits)
    requires FitsFor(double, fits, c, n)
    ensures Iterate(f, add(Iterate(f, u, n), c), r) == Iterate(f, add(u, Iterate(double, c, n)), n + r)
  {
    IterateDelays(f, add, double, fits, u, c, n);
    IterateAdd(f, add(u, Iterate(double, c, n)), n, r);
  }

  lemma FourRounds<T(!new)>(f: T -> T, add: (T, T) -> T, double: T -> T, fits: T -> bool, s: T, c: seq<T>, r: nat)
    requires Delays(f, add, double, fits)
    requires |c| == 4
    requires FitsFor(double, fits, c[1], r) && FitsFor(double, fits, c[2], 2 * r) && FitsFor(double, fits, c[3], 3 * r)
    ensures Rounds(f, add, s, c, r) == Iterate(f, Packed(add, double, s, c, r), 4 * r)
  {
    hide Delays, FitsFor;
    var u0 := add(s, c[0]);
    var u1 := add(u0, Iterate(double, c[1], r));
    var u2 := add(u1, Iterate(double, c[2], 2 * r));
    Round(f, add, double, fits, u0, c[1], r, r);
    Round(f, add, double, fits, u1, c[2], 2 * r, r);
    Round(f, add, double, fits, u2, c[3], 3 * r, r);
    assert r + r == 2 * r && 2 * r + r == 3 * r && 3 * r + r == 4 * r;
  }

  function Rounds<T>(f: T -> T, add: (T, T) -> T, s: T, c: seq<T>, r: nat): T
    requires |c| == 4
  {
    var s0 := Iterate(f, add(s, c[0]), r);
    var s1 := Iterate(f, add(s0, c[1]), r);
    var s2 := Iterate(f, add(s1, c[2]), r);
    Iterate(f, add(s2, c[3]), r)
  }

  function Packed<T>(add: (T, T) -> T, double: T -> T, s: T, c: seq<T>, r: nat): T
    requires |c| == 4
  {
    add(add(add(add(s, c[0]), Iterate(double, c[1], r)), Iterate(double, c[2], 2 * r)), Iterate(double, c[3], 3 * r))
  }
}
