// Iterating a partial function on finitely many positions: it is undefined soon or never.
module Orbits {
  import opened Wrappers

  function Iterate(f: nat -> Option<nat>, i: nat, n: nat): Option<nat>
    decreases n
  {
    if n == 0 then Some(i) else if f(i).None? then None else Iterate(f, f(i).value, n - 1)
  }

  lemma {:induction false} IterateSum(f: nat -> Option<nat>, i: nat, m: nat, n: nat)
    ensures Iterate(f, i, m + n) ==
            if Iterate(f, i, m).None? then None else Iterate(f, Iterate(f, i, m).value, n)
    decreases m
  {
    if m > 0 && f(i).Some? {
      IterateSum(f, f(i).value, m - 1, n);
    }
  }

  // Once undefined, undefined for good.
  lemma Ended(f: nat -> Option<nat>, i: nat, m: nat, n: nat)
    requires m <= n && Iterate(f, i, n).Some?
    ensures Iterate(f, i, m).Some?
  {
    IterateSum(f, i, m, n - m);
  }

  lemma {:induction false} CycleStays(f: nat -> Option<nat>, i: nat, c: nat, n: nat)
    requires c > 0 && Iterate(f, i, c) == Some(i)
    ensures Iterate(f, i, n).Some?
    decreases n
  {
    if n < c {
      Ended(f, i, n, c);
    } else {
      CycleStays(f, i, c, n - c);
      IterateSum(f, i, c, n - c);
    }
  }

  ghost predicate Bounded(f: nat -> Option<nat>, bound: nat) {
    forall p: nat :: p <= bound && f(p).Some? ==> f(p).value <= bound
  }

  lemma {:induction false} IterateBounded(f: nat -> Option<nat>, i: nat, bound: nat, n: nat)
    requires i <= bound && Bounded(f, bound) && Iterate(f, i, n).Some?
    ensures Iterate(f, i, n).value <= bound
    decreases n
  {
    if n > 0 {
      IterateBounded(f, f(i).value, bound, n - 1);
    }
  }

  function Positions(n: nat): (r: set<nat>)
    ensures (forall p: nat :: p in r <==> p < n) && |r| == n
  {
    if n == 0 then {} else Positions(n - 1) + {n - 1}
  }

  lemma {:induction false} SubsetSize(a: set<nat>, b: set<nat>)
    requires a <= b
    ensures |a| <= |b|
    decreases a
  {
    if a != {} {
      var x :| x in a;
      SubsetSize(a - {x}, b - {x});
    }
  }

  // The set holds the first n values and no others.
  ghost predicate FirstValues(f: nat -> Option<nat>, i: nat, n: nat, seen: set<nat>) {
    forall p <- seen :: exists k: nat :: k < n && Iterate(f, i, k) == Some(p)
  }

  lemma OneMoreValue(f: nat -> Option<nat>, i: nat, n: nat, seen: set<nat>, p: nat)
    requires FirstValues(f, i, n, seen) && Iterate(f, i, n) == Some(p)
    ensures FirstValues(f, i, n + 1, seen + {p})
  {
    forall q <- seen + {p} ensures exists k: nat :: k < n + 1 && Iterate(f, i, k) == Some(q) {
      if q in seen {
        var k: nat :| k < n && Iterate(f, i, k) == Some(q);
        assert k < n + 1;
      } else {
        assert n < n + 1 && Iterate(f, i, n) == Some(q);
      }
    }
  }

  // A value comes back.
  ghost predicate Returns(f: nat -> Option<nat>, i: nat) {
    exists a: nat, b: nat :: a < b && Iterate(f, i, a).Some? && Iterate(f, i, a) == Iterate(f, i, b)
  }

  lemma EarlierValue(f: nat -> Option<nat>, i: nat, n: nat, seen: set<nat>, p: nat)
    requires FirstValues(f, i, n, seen) && p in seen && Iterate(f, i, n) == Some(p)
    ensures Returns(f, i)
  {
    var k: nat :| k < n && Iterate(f, i, k) == Some(p);
    assert Iterate(f, i, k).Some? && Iterate(f, i, k) == Iterate(f, i, n);
  }

  // The first values, one more than the set has members, all lie in the set.
  ghost predicate Confined(f: nat -> Option<nat>, i: nat, all: set<nat>) {
    forall n: nat :: n <= |all| ==> ValueIn(f, i, n, all)
  }

  ghost predicate ValueIn(f: nat -> Option<nat>, i: nat, n: nat, all: set<nat>) {
    Iterate(f, i, n).Some? && Iterate(f, i, n).value in all
  }

  // Among more values than positions, one comes back.
  lemma {:induction false} Pigeonhole(f: nat -> Option<nat>, i: nat, all: set<nat>, seen: set<nat>)
    requires Confined(f, i, all) && seen <= all && FirstValues(f, i, |seen|, seen)
    ensures Returns(f, i)
    decreases all - seen
  {
    SubsetSize(seen, all);
    assert ValueIn(f, i, |seen|, all);
    var p := Iterate(f, i, |seen|).value;
    if p in seen {
      EarlierValue(f, i, |seen|, seen, p);
    } else {
      OneMoreValue(f, i, |seen|, seen, p);
      Pigeonhole(f, i, all, seen + {p});
    }
  }

  lemma ReturnStays(f: nat -> Option<nat>, i: nat, n: nat)
    requires Returns(f, i)
    ensures Iterate(f, i, n).Some?
  {
    var a: nat, b: nat :| a < b && Iterate(f, i, a).Some? && Iterate(f, i, a) == Iterate(f, i, b);
    var p := Iterate(f, i, a).value;
    IterateSum(f, i, a, b - a);
    CycleStays(f, p, b - a, n);
    IterateSum(f, i, a, n);
    Ended(f, i, n, a + n);
  }

  lemma LongMeansReturn(f: nat -> Option<nat>, i: nat, bound: nat)
    requires i <= bound && Bounded(f, bound) && Iterate(f, i, bound + 1).Some?
    ensures Returns(f, i)
  {
    var all := Positions(bound + 1);
    forall n: nat | n <= |all| ensures ValueIn(f, i, n, all) {
      Ended(f, i, n, bound + 1);
      IterateBounded(f, i, bound, n);
    }
    Pigeonhole(f, i, all, {});
  }

  lemma StopsUnlessItReturns(f: nat -> Option<nat>, i: nat, bound: nat, n: nat)
    requires i <= bound < n && Bounded(f, bound)
    ensures Iterate(f, i, n).None? <==> !Returns(f, i)
  {
    if Iterate(f, i, n).Some? {
      Ended(f, i, bound + 1, n);
      LongMeansReturn(f, i, bound);
    }
    if Returns(f, i) {
      ReturnStays(f, i, n);
    }
  }

  lemma SoonOrNever(f: nat -> Option<nat>, i: nat, bound: nat, n: nat)
    requires i <= bound && Bounded(f, bound)
    ensures Iterate(f, i, n).None? ==> Iterate(f, i, bound + 2).None?
  {
    StopsUnlessItReturns(f, i, bound, bound + 2);
    if Returns(f, i) {
      ReturnStays(f, i, n);
    }
  }
}
