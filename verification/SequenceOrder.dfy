// The ordering part of ParseChildrenScnJsonByDirection in uiSc2SCnJsonTranslator.cpp: arcs that
// nrel_basic_sequence puts in a row are shown in that row.
module SequenceOrder {
  import opened ScTypes
  import opened ScGraph

  // What the iterators look for: a common arc that the relation `nrel` contains.
  predicate SequenceArc(g: Graph, nrel: Addr, r: Addr, p: Addr) {
    && r in g && HasSubtype(g[r].ty, CONST_COMMON_ARC)
    && p in g && HasSubtype(g[p].ty, CONST_PERM_POS_ARC) && g[p].begin == nrel && g[p].end == r
  }

  // `y` comes after `x`: the relation has a common arc from `x` to `y` as a member.
  ghost predicate Follows(g: Graph, nrel: Addr, x: Addr, y: Addr) {
    exists r <- g :: g[r].begin == x && g[r].end == y && HasSubtype(g[r].ty, CONST_COMMON_ARC) && IsMemberOf(g, nrel, r)
  }

  ghost predicate IsMemberOf(g: Graph, relation: Addr, r: Addr) {
    exists p <- g :: g[p].begin == relation && g[p].end == r && HasSubtype(g[p].ty, CONST_PERM_POS_ARC)
  }

  // What follows what.
  type Relation = (Addr, Addr) -> bool

  ghost function FollowsIn(g: Graph, nrel: Addr): Relation {
    (x: Addr, y: Addr) => Follows(g, nrel, x, y)
  }

  predicate Distinct(w: seq<Addr>) { forall i: nat, k: nat :: i < k < |w| ==> w[i] != w[k] }

  // The elements of `row` follow one another, the first one the last one if the row is closed, and
  // follow, or are followed by, nothing else.
  ghost predicate IsRow(f: Relation, row: seq<Addr>, closed: bool) {
    && Distinct(row)
    && (forall i: nat, k: nat :: i < |row| && k < |row| ==>
          (f(row[i], row[k]) <==> Successive(|row|, closed, i, k)))
    && (forall i: nat, y: Addr :: i < |row| && (f(row[i], y) || f(y, row[i])) ==> y in row)
  }

  predicate Successive(n: nat, closed: bool, i: nat, k: nat) {
    k == i + 1 || (closed && i == n - 1 && k == 0)
  }

  // The elements around position p, as far as they are all among the arcs.
  ghost predicate IsRun(chain: seq<Addr>, arcs: set<Addr>, p: nat, lo: nat, hi: nat) {
    && lo <= p < hi <= |chain|
    && (forall i :: lo <= i < hi ==> chain[i] in arcs)
    && (lo > 0 ==> chain[lo - 1] !in arcs)
    && (hi < |chain| ==> chain[hi] !in arcs)
  }

  // ---- Walks ----

  // The next arc of a walk, back or on.
  predicate Beside(f: Relation, back: bool, x: Addr, y: Addr) {
    if back then f(y, x) else f(x, y)
  }

  ghost predicate IsWalk(f: Relation, back: bool, arcs: set<Addr>, w: seq<Addr>) {
    && w != []
    && (forall i: nat :: i < |w| ==> w[i] in arcs)
    && forall i: nat, k: nat :: i + 1 == k < |w| ==> Beside(f, back, w[i], w[k])
  }

  // No walk within the arcs comes back to where it has been.
  ghost predicate NeverReturns(f: Relation, back: bool, arcs: set<Addr>, a: Addr) {
    forall w: seq<Addr> :: IsWalk(f, back, arcs, w) && w[0] == a ==> Distinct(w)
  }

  ghost predicate HasBeside(f: Relation, back: bool, x: Addr) {
    exists z :: Beside(f, back, x, z)
  }

  // The walk ends here: nothing is beside it, or something outside the arcs.
  ghost predicate Stops(f: Relation, back: bool, arcs: set<Addr>, x: Addr) {
    !HasBeside(f, back, x) || exists z :: z !in arcs && Beside(f, back, x, z)
  }

  ghost predicate IsWhole(f: Relation, back: bool, arcs: set<Addr>, w: seq<Addr>, a: Addr) {
    IsWalk(f, back, arcs, w) && w[0] == a && Stops(f, back, arcs, w[|w| - 1])
  }

  lemma {:induction false} DistinctLength(w: seq<Addr>, arcs: set<Addr>)
    requires Distinct(w) && forall i: nat :: i < |w| ==> w[i] in arcs
    ensures |w| <= |arcs|
  {
    if w != [] {
      var n := |w| - 1;
      DistinctLength(w[..n], arcs - {w[n]});
    }
  }

  ghost predicate AllWithin(f: Relation, back: bool, arcs: set<Addr>, a: Addr, n: nat) {
    forall w: seq<Addr> :: IsWalk(f, back, arcs, w) && w[0] == a ==> |w| <= n
  }

  // Walks that come back can be made as long as one likes.
  lemma {:induction false} LongWalk(f: Relation, back: bool, arcs: set<Addr>, w: seq<Addr>, i: nat, n: nat)
    returns (long: seq<Addr>)
    requires IsWalk(f, back, arcs, w) && i + 1 < |w| && w[i] == w[|w| - 1]
    ensures IsWalk(f, back, arcs, long) && long[0] == w[0] && |long| > n
    decreases n - |w|
  {
    if |w| > n {
      long := w;
    } else {
      long := LongWalk(f, back, arcs, w + w[i + 1..], i, n);
    }
  }

  // The length of the walks is bounded, whatever the iterators find first, if and only if none of
  // them comes back.
  lemma EndsUnlessItReturns(f: Relation, back: bool, arcs: set<Addr>, a: Addr)
    ensures NeverReturns(f, back, arcs, a) <==> exists n: nat :: AllWithin(f, back, arcs, a, n)
  {
    if NeverReturns(f, back, arcs, a) {
      forall w | IsWalk(f, back, arcs, w) && w[0] == a ensures |w| <= |arcs| {
        DistinctLength(w, arcs);
      }
      assert AllWithin(f, back, arcs, a, |arcs|);
    } else if n: nat :| AllWithin(f, back, arcs, a, n) {
      var w :| IsWalk(f, back, arcs, w) && w[0] == a && !Distinct(w);
      var i: nat, k: nat :| i < k < |w| && w[i] == w[k];
      var long := LongWalk(f, back, arcs, w[..k + 1], i, n);
      assert false;
    }
  }

  function Reversed(w: seq<Addr>): (r: seq<Addr>)
    ensures |r| == |w|
  {
    if w == [] then [] else [w[|w| - 1]] + Reversed(w[..|w| - 1])
  }

  lemma {:induction false} ReversedAt(w: seq<Addr>, i: nat)
    requires i < |w|
    ensures Reversed(w)[i] == w[|w| - 1 - i]
  {
    if i > 0 {
      ReversedAt(w[..|w| - 1], i - 1);
    }
  }

  lemma ReversedMore(w: seq<Addr>, x: Addr)
    ensures Reversed([x]) == [x] && Reversed(w + [x]) == [x] + Reversed(w)
  {
    assert (w + [x])[..|w|] == w;
    assert [x][..0] == [];
  }

  // The iterator for the arc before `y`, or the one after `x`, and what it finds first.
  method Previous(g: Graph, nrel: Addr, y: Addr) returns (found: bool, x: Addr)
    ensures found <==> HasBeside(FollowsIn(g, nrel), true, y)
    ensures found ==> Beside(FollowsIn(g, nrel), true, y, x)
  {
    if r, p :| r in g && p in g && SequenceArc(g, nrel, r, p) && g[r].end == y {
      assert Beside(FollowsIn(g, nrel), true, y, g[r].begin);
      return true, g[r].begin;
    }
    return false, EMPTY;
  }

  method Next(g: Graph, nrel: Addr, x: Addr) returns (found: bool, y: Addr)
    ensures found <==> HasBeside(FollowsIn(g, nrel), false, x)
    ensures found ==> Beside(FollowsIn(g, nrel), false, x, y)
  {
    if r, p :| r in g && p in g && SequenceArc(g, nrel, r, p) && g[r].begin == x {
      assert Beside(FollowsIn(g, nrel), false, x, g[r].end);
      return true, g[r].end;
    }
    return false, EMPTY;
  }

  ghost predicate HasNeighbour(f: Relation, x: Addr) {
    HasBeside(f, true, x) || HasBeside(f, false, x)
  }

  // The walk back from an arc, which stops before the first arc that is not in the list.
  method WalkBack(g: Graph, nrel: Addr, arcs: seq<Addr>, someArc: Addr)
    returns (row: seq<Addr>, any: bool, ghost walk: seq<Addr>)
    requires someArc in arcs && NeverReturns(FollowsIn(g, nrel), true, Members(arcs), someArc)
    ensures any <==> HasBeside(FollowsIn(g, nrel), true, someArc)
    ensures IsWhole(FollowsIn(g, nrel), true, Members(arcs), walk, someArc) && row == Reversed(walk)
  {
    row, walk := [someArc], [someArc];
    ReversedMore([], someArc);
    var current := someArc;
    var found, neighbour := Previous(g, nrel, current);
    any := found;
    while found
      invariant IsWalk(FollowsIn(g, nrel), true, Members(arcs), walk) && walk[0] == someArc && row == Reversed(walk)
      invariant current == walk[|walk| - 1] && (found <==> HasBeside(FollowsIn(g, nrel), true, current))
      invariant found ==> Beside(FollowsIn(g, nrel), true, current, neighbour)
      decreases |Members(arcs)| - |walk|, found
    {
      DistinctLength(walk, Members(arcs));
      if neighbour !in arcs {
        break;
      }
      ReversedMore(walk, neighbour);
      row, walk, current := [neighbour] + row, walk + [neighbour], neighbour;
      DistinctLength(walk, Members(arcs));
      found, neighbour := Previous(g, nrel, current);
    }
  }

  // The walk on from the same arc; the row grows at its end.
  method WalkOn(g: Graph, nrel: Addr, arcs: seq<Addr>, someArc: Addr, back: seq<Addr>)
    returns (row: seq<Addr>, any: bool, ghost walk: seq<Addr>)
    requires someArc in arcs && NeverReturns(FollowsIn(g, nrel), false, Members(arcs), someArc)
    ensures any <==> HasBeside(FollowsIn(g, nrel), false, someArc)
    ensures IsWhole(FollowsIn(g, nrel), false, Members(arcs), walk, someArc) && row == back + walk[1..]
  {
    row, walk := back, [someArc];
    var current := someArc;
    var found, neighbour := Next(g, nrel, current);
    any := found;
    while found
      invariant IsWalk(FollowsIn(g, nrel), false, Members(arcs), walk) && walk[0] == someArc && row == back + walk[1..]
      invariant current == walk[|walk| - 1] && (found <==> HasBeside(FollowsIn(g, nrel), false, current))
      invariant found ==> Beside(FollowsIn(g, nrel), false, current, neighbour)
      decreases |Members(arcs)| - |walk|, found
    {
      DistinctLength(walk, Members(arcs));
      if neighbour !in arcs {
        break;
      }
      row, walk, current := row + [neighbour], walk + [neighbour], neighbour;
      DistinctLength(walk, Members(arcs));
      found, neighbour := Next(g, nrel, current);
    }
  }

  // A walk back from the arc, turned round, and a walk on from it.
  ghost predicate IsOrdered(f: Relation, arcs: set<Addr>, a: Addr, ordered: seq<Addr>) {
    exists back, on ::
      && IsWhole(f, true, arcs, back, a) && IsWhole(f, false, arcs, on, a)
      && ordered == Reversed(back) + on[1..]
  }

  // A list whose first arc is in no sequence is shown as it is; otherwise what the two walks from the
  // first arc reach.
  method OrderArcs(g: Graph, nrel: Addr, arcs: seq<Addr>) returns (ordered: seq<Addr>)
    requires arcs != [] ==> NeverReturns(FollowsIn(g, nrel), true, Members(arcs), arcs[0])
    requires arcs != [] ==> NeverReturns(FollowsIn(g, nrel), false, Members(arcs), arcs[0])
    ensures arcs == [] ==> ordered == []
    ensures arcs != [] && !HasNeighbour(FollowsIn(g, nrel), arcs[0]) ==> ordered == arcs
    ensures arcs != [] && HasNeighbour(FollowsIn(g, nrel), arcs[0]) ==>
              IsOrdered(FollowsIn(g, nrel), Members(arcs), arcs[0], ordered)
  {
    ordered := [];
    var isTupleNotOriented := true;
    if arcs != [] {
      var someArc := arcs[0];
      var row, before, back := WalkBack(g, nrel, arcs, someArc);
      var whole, after, on := WalkOn(g, nrel, arcs, someArc, row);
      isTupleNotOriented := !before && !after;
      ordered := whole;
      assert IsOrdered(FollowsIn(g, nrel), Members(arcs), someArc, ordered);
    }
    if ordered == [] || isTupleNotOriented {
      ordered := arcs;
    }
  }

  // ---- Rows ----

  // A walk within a row goes along it; a closed row has to begin outside the arcs.
  lemma {:induction false} BackInRow(
      f: Relation, row: seq<Addr>, closed: bool, arcs: set<Addr>, w: seq<Addr>, p: nat, i: nat)
    requires IsRow(f, row, closed) && p < |row| && (closed ==> row[0] !in arcs)
    requires IsWalk(f, true, arcs, w) && w[0] == row[p] && i < |w|
    ensures i <= p && w[i] == row[p - i]
    decreases i
  {
    if i > 0 {
      BackInRow(f, row, closed, arcs, w, p, i - 1);
      assert Beside(f, true, w[i - 1], w[i]);
      assert w[i] in row;
      var k: nat :| k < |row| && row[k] == w[i];
      assert Successive(|row|, closed, k, p - (i - 1));
    }
  }

  lemma {:induction false} OnInRow(
      f: Relation, row: seq<Addr>, closed: bool, arcs: set<Addr>, w: seq<Addr>, p: nat, i: nat)
    requires IsRow(f, row, closed) && p < |row| && (closed ==> row[0] !in arcs)
    requires IsWalk(f, false, arcs, w) && w[0] == row[p] && i < |w|
    ensures p + i < |row| && w[i] == row[p + i]
    decreases i
  {
    if i > 0 {
      OnInRow(f, row, closed, arcs, w, p, i - 1);
      assert Beside(f, false, w[i - 1], w[i]);
      assert w[i] in row;
      var k: nat :| k < |row| && row[k] == w[i];
      assert Successive(|row|, closed, p + (i - 1), k);
    }
  }

  // So it never returns.
  lemma RowNeverReturns(f: Relation, back: bool, row: seq<Addr>, closed: bool, arcs: set<Addr>, p: nat)
    requires IsRow(f, row, closed) && p < |row| && (closed ==> row[0] !in arcs)
    ensures NeverReturns(f, back, arcs, row[p])
  {
    forall w | IsWalk(f, back, arcs, w) && w[0] == row[p] ensures Distinct(w) {
      forall i: nat, k: nat | i < k < |w| ensures w[i] != w[k] {
        if back {
          BackInRow(f, row, closed, arcs, w, p, i);
          BackInRow(f, row, closed, arcs, w, p, k);
        } else {
          OnInRow(f, row, closed, arcs, w, p, i);
          OnInRow(f, row, closed, arcs, w, p, k);
        }
      }
    }
  }

  lemma BackRun(f: Relation, row: seq<Addr>, closed: bool, arcs: set<Addr>, w: seq<Addr>, p: nat)
    returns (lo: nat)
    requires IsRow(f, row, closed) && p < |row| && (closed ==> row[0] !in arcs)
    requires IsWhole(f, true, arcs, w, row[p])
    ensures lo <= p && Reversed(w) == row[lo..p + 1] && (forall i :: lo <= i <= p ==> row[i] in arcs)
    ensures lo > 0 ==> row[lo - 1] !in arcs
  {
    BackInRow(f, row, closed, arcs, w, p, |w| - 1);
    lo := p + 1 - |w|;
    forall i | lo <= i <= p ensures row[i] in arcs && Reversed(w)[i - lo] == row[i] {
      BackInRow(f, row, closed, arcs, w, p, p - i);
      ReversedAt(w, i - lo);
    }
    if lo > 0 {
      BeforeInRow(f, row, closed, arcs, lo);
    }
  }

  lemma BeforeInRow(f: Relation, row: seq<Addr>, closed: bool, arcs: set<Addr>, lo: nat)
    requires IsRow(f, row, closed) && 0 < lo < |row| && Stops(f, true, arcs, row[lo])
    ensures row[lo - 1] !in arcs
  {
    assert Successive(|row|, closed, lo - 1, lo) && Beside(f, true, row[lo], row[lo - 1]);
    var z :| z !in arcs && Beside(f, true, row[lo], z);
    assert z in row;
    var k: nat :| k < |row| && row[k] == z;
    assert Successive(|row|, closed, k, lo);
  }

  lemma OnRun(f: Relation, row: seq<Addr>, closed: bool, arcs: set<Addr>, w: seq<Addr>, p: nat)
    returns (hi: nat)
    requires IsRow(f, row, closed) && p < |row| && (closed ==> row[0] !in arcs)
    requires IsWhole(f, false, arcs, w, row[p])
    ensures p < hi <= |row| && w[1..] == row[p + 1..hi] && (forall i :: p <= i < hi ==> row[i] in arcs)
    ensures hi < |row| ==> row[hi] !in arcs
  {
    OnInRow(f, row, closed, arcs, w, p, |w| - 1);
    hi := p + |w|;
    forall i | p <= i < hi ensures row[i] in arcs && w[i - p] == row[i] {
      OnInRow(f, row, closed, arcs, w, p, i - p);
    }
    if hi < |row| {
      AfterInRow(f, row, closed, arcs, hi);
    }
  }

  lemma AfterInRow(f: Relation, row: seq<Addr>, closed: bool, arcs: set<Addr>, hi: nat)
    requires IsRow(f, row, closed) && 0 < hi < |row| && Stops(f, false, arcs, row[hi - 1])
    ensures row[hi] !in arcs
  {
    assert Successive(|row|, closed, hi - 1, hi) && Beside(f, false, row[hi - 1], row[hi]);
    var z :| z !in arcs && Beside(f, false, row[hi - 1], z);
    assert z in row;
    var k: nat :| k < |row| && row[k] == z;
    assert Successive(|row|, closed, hi - 1, k);
  }

  // In a row whose end or beginning the arcs miss, what comes out is the longest run through the
  // first arc.
  lemma OrderedIsRun(
      f: Relation, row: seq<Addr>, closed: bool, arcs: set<Addr>, p: nat, ordered: seq<Addr>)
    returns (lo: nat, hi: nat)
    requires IsRow(f, row, closed) && p < |row| && (closed ==> row[0] !in arcs)
    requires IsOrdered(f, arcs, row[p], ordered)
    ensures IsRun(row, arcs, p, lo, hi) && ordered == row[lo..hi]
  {
    var back, on :|
      && IsWhole(f, true, arcs, back, row[p]) && IsWhole(f, false, arcs, on, row[p])
      && ordered == Reversed(back) + on[1..];
    lo := BackRun(f, row, closed, arcs, back, p);
    hi := OnRun(f, row, closed, arcs, on, p);
  }

  // On a sequence that ends, or a cyclic one that leaves the list: the longest run through the first
  // arc.
  method OrderRow(g: Graph, nrel: Addr, arcs: seq<Addr>, ghost row: seq<Addr>, ghost closed: bool)
    returns (ordered: seq<Addr>)
    requires IsRow(FollowsIn(g, nrel), row, closed) && arcs != [] && arcs[0] in row
    requires closed ==> row[0] !in arcs
    ensures !HasNeighbour(FollowsIn(g, nrel), arcs[0]) ==> ordered == arcs
    ensures HasNeighbour(FollowsIn(g, nrel), arcs[0]) ==>
              exists p: nat, lo: nat, hi: nat ::
                IsRun(row, Members(arcs), p, lo, hi) && row[p] == arcs[0] && ordered == row[lo..hi]
  {
    ghost var p: nat :| p < |row| && row[p] == arcs[0];
    RowNeverReturns(FollowsIn(g, nrel), true, row, closed, Members(arcs), p);
    RowNeverReturns(FollowsIn(g, nrel), false, row, closed, Members(arcs), p);
    ordered := OrderArcs(g, nrel, arcs);
    if HasNeighbour(FollowsIn(g, nrel), arcs[0]) {
      ghost var lo, hi := OrderedIsRun(FollowsIn(g, nrel), row, closed, Members(arcs), p, ordered);
    }
  }

  // ---- Cyclic sequences ----

  // Positions modulo the length.
  function Around(n: nat, q: nat, i: nat): (k: nat)
    requires q < n && i < n
    ensures k < n
  {
    if q + i < n then q + i else q + i - n
  }

  function Rotated(row: seq<Addr>, q: nat): (turned: seq<Addr>)
    requires q < |row|
    ensures |turned| == |row| && forall i: nat :: i < |row| ==> turned[i] == row[Around(|row|, q, i)]
  {
    row[q..] + row[..q]
  }

  lemma RotatedMembers(row: seq<Addr>, q: nat)
    requires q < |row|
    ensures forall x :: x in Rotated(row, q) <==> x in row
  {
    assert row == row[..q] + row[q..];
  }

  // A cyclic sequence may be read from any of its arcs.
  lemma RotatedRow(f: Relation, row: seq<Addr>, q: nat)
    requires IsRow(f, row, true) && q < |row|
    ensures IsRow(f, Rotated(row, q), true)
  {
    var turned, n := Rotated(row, q), |row|;
    RotatedMembers(row, q);
    forall i: nat, k: nat | i < n && k < n
      ensures f(turned[i], turned[k]) <==> Successive(n, true, i, k)
    {
      assert Successive(n, true, i, k) <==> Successive(n, true, Around(n, q, i), Around(n, q, k));
    }
  }

  // Once round on, back to where it began ...
  lemma RoundOn(f: Relation, row: seq<Addr>, arcs: set<Addr>)
    requires row != [] && IsRow(f, row, true) && Members(row) <= arcs
    ensures !NeverReturns(f, false, arcs, row[0])
  {
    var n, w := |row|, row + [row[0]];
    assert forall i: nat :: i < n ==> row[i] in Members(row);
    forall i: nat, k: nat | i + 1 == k < |w| ensures Beside(f, false, w[i], w[k]) {
      assert Successive(n, true, i, if k == n then 0 else k);
    }
    assert IsWalk(f, false, arcs, w) && w[0] == w[n];
  }

  // ... and once round back.
  lemma RoundBack(f: Relation, row: seq<Addr>, arcs: set<Addr>)
    requires row != [] && IsRow(f, row, true) && Members(row) <= arcs
    ensures !NeverReturns(f, true, arcs, row[0])
  {
    var n := |row|;
    var w := seq(n + 1, i requires 0 <= i <= n => row[if i == 0 then 0 else n - i]);
    assert forall i: nat :: i < n ==> row[i] in Members(row);
    forall i: nat, k: nat | i + 1 == k < |w| ensures Beside(f, true, w[i], w[k]) {
      assert Successive(n, true, n - k, if i == 0 then 0 else n - i);
    }
    assert IsWalk(f, true, arcs, w) && w[0] == w[n];
  }

  lemma WithinReturns(f: Relation, back: bool, row: seq<Addr>, arcs: set<Addr>, p: nat)
    requires IsRow(f, row, true) && p < |row| && Members(row) <= arcs
    ensures !NeverReturns(f, back, arcs, row[p])
  {
    RotatedRow(f, row, p);
    RotatedMembers(row, p);
    if back {
      RoundBack(f, Rotated(row, p), arcs);
    } else {
      RoundOn(f, Rotated(row, p), arcs);
    }
  }

  lemma LeavingEnds(f: Relation, back: bool, row: seq<Addr>, arcs: set<Addr>, p: nat, q: nat)
    requires IsRow(f, row, true) && p < |row| && q < |row| && row[q] !in arcs
    ensures NeverReturns(f, back, arcs, row[p])
  {
    RotatedRow(f, row, q);
    RotatedMembers(row, q);
    assert row[p] in Rotated(row, q);
    var p': nat :| p' < |row| && Rotated(row, q)[p'] == row[p];
    assert Rotated(row, q)[0] == row[q];
    RowNeverReturns(f, back, Rotated(row, q), true, arcs, p');
  }

  // On a cyclic sequence a walk ends if and only if some arc of it is not in the list.
  lemma CycleEndsIffItLeaves(f: Relation, back: bool, row: seq<Addr>, arcs: set<Addr>, p: nat)
    requires IsRow(f, row, true) && p < |row|
    ensures NeverReturns(f, back, arcs, row[p]) <==> !(Members(row) <= arcs)
  {
    if q: nat :| q < |row| && row[q] !in arcs {
      LeavingEnds(f, back, row, arcs, p, q);
      assert row[q] in Members(row);
    } else {
      WithinReturns(f, back, row, arcs, p);
    }
  }

  // Two arcs from `s` to `e`, each marked as following the other.
  ghost predicate FollowEachOther(
      g: Graph, nrel: Addr, s: Addr, e: Addr, x: Addr, y: Addr, there: Addr, again: Addr, p: Addr, q: Addr)
  {
    && EMPTY !in g && g.Keys == {nrel, s, e, x, y, there, again, p, q} && x != y && s != nrel
    && g[nrel] == g[s] == g[e] == Node(CONST_NODE)
    && g[x] == g[y] == Arc(CONST_PERM_POS_ARC, s, e)
    && g[there] == Arc(CONST_COMMON_ARC, x, y) && g[again] == Arc(CONST_COMMON_ARC, y, x)
    && g[p] == Arc(CONST_PERM_POS_ARC, nrel, there) && g[q] == Arc(CONST_PERM_POS_ARC, nrel, again)
  }

  lemma TwoCycle(
      g: Graph, nrel: Addr, s: Addr, e: Addr, x: Addr, y: Addr, there: Addr, again: Addr, p: Addr, q: Addr)
    requires FollowEachOther(g, nrel, s, e, x, y, there, again, p, q)
    ensures forall a, b :: Follows(g, nrel, a, b) <==> (a == x && b == y) || (a == y && b == x)
  {
    ArcTypes();
    assert SequenceArc(g, nrel, there, p) && SequenceArc(g, nrel, again, q);
  }

  lemma TwoOutputArcs(
      g: Graph, nrel: Addr, s: Addr, e: Addr, x: Addr, y: Addr, there: Addr, again: Addr, p: Addr, q: Addr)
    requires FollowEachOther(g, nrel, s, e, x, y, there, again, p, q)
    ensures Wf(g) && x != y && forall a :: a in g && IsConnector(g[a].ty) && g[a].begin == s <==> a in {x, y}
  {
    assert ConnectorType(CONST_PERM_POS_ARC) && ConnectorType(CONST_COMMON_ARC) && !IsConnector(CONST_NODE);
  }

  lemma RowOfTwo(f: Relation, x: Addr, y: Addr)
    requires x != y && forall a, b :: f(a, b) <==> (a == x && b == y) || (a == y && b == x)
    ensures IsRow(f, [x, y], true)
    ensures forall back: bool :: !NeverReturns(f, back, {x, y}, x)
  {
    assert Members([x, y]) == {x, y};
    forall back: bool ensures !NeverReturns(f, back, {x, y}, x) {
      CycleEndsIffItLeaves(f, back, [x, y], {x, y}, 0);
    }
  }

  // The output arcs of `s`, when they are two that follow each other: neither walk ends.
  lemma CyclicInput(
      g: Graph, nrel: Addr, s: Addr, e: Addr, x: Addr, y: Addr, there: Addr, again: Addr, p: Addr, q: Addr)
    requires FollowEachOther(g, nrel, s, e, x, y, there, again, p, q)
    ensures Wf(g) && forall a :: a in g && IsConnector(g[a].ty) && g[a].begin == s <==> a in {x, y}
    ensures IsRow(FollowsIn(g, nrel), [x, y], true)
    ensures forall back: bool :: !NeverReturns(FollowsIn(g, nrel), back, {x, y}, x)
  {
    TwoOutputArcs(g, nrel, s, e, x, y, there, again, p, q);
    TwoCycle(g, nrel, s, e, x, y, there, again, p, q);
    RowOfTwo(FollowsIn(g, nrel), x, y);
  }

  // ---- Whole segments ----

  // Arcs that fill a segment of the sequence come out as that segment, whichever of them the
  // unordered list began with.
  lemma SegmentIsRun(chain: seq<Addr>, arcs: set<Addr>, a: nat, b: nat, p: nat, lo: nat, hi: nat)
    requires forall i: nat, k: nat :: i < k < |chain| ==> chain[i] != chain[k]
    requires a <= b <= |chain| && arcs == Members(chain[a..b])
    requires IsRun(chain, arcs, p, lo, hi)
    ensures lo == a && hi == b
  {
    forall i: nat | i < |chain| ensures chain[i] in arcs <==> a <= i < b {
      if a <= i < b {
        assert chain[i] == chain[a..b][i - a];
      }
      if chain[i] in arcs {
        var k :| 0 <= k < b - a && chain[a..b][k] == chain[i];
        assert chain[a + k] == chain[i];
      }
    }
    assert chain[lo] in arcs && chain[hi - 1] in arcs;
  }

  // Every arc is shown exactly when the arcs fill a segment; otherwise some are left out.
  lemma ShownIffSegment(chain: seq<Addr>, arcs: set<Addr>, p: nat, lo: nat, hi: nat)
    requires forall i: nat, k: nat :: i < k < |chain| ==> chain[i] != chain[k]
    requires IsRun(chain, arcs, p, lo, hi)
    ensures Members(chain[lo..hi]) <= arcs
    ensures arcs == Members(chain[lo..hi]) <==>
            exists a: nat, b: nat :: a <= b <= |chain| && arcs == Members(chain[a..b])
  {
    forall x <- Members(chain[lo..hi]) ensures x in arcs {
      var k :| 0 <= k < |chain[lo..hi]| && chain[lo..hi][k] == x;
      assert chain[lo + k] == x;
    }
    if a: nat, b: nat :| a <= b <= |chain| && arcs == Members(chain[a..b]) {
      SegmentIsRun(chain, arcs, a, b, p, lo, hi);
    }
  }
}
