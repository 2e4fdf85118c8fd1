// The oriented sets of a memory as plain sequences of elements.
module OrientedRefinement {
  import opened ScTypes
  import opened ScGraph
  import opened OrientedChain
  import opened OrientedWorld
  import opened OrientedSteps
  import opened OrientedSet

  ghost predicate Exist(g: Graph, view: View) {
    forall s <- view, a <- view[s] :: a in g
  }

  // The abstract state: the sequence of elements of each set.
  ghost function Abstract(g: Graph, view: View): map<Addr, seq<Addr>>
    requires Exist(g, view)
  {
    map s <- view :: Elements(g, view[s])
  }

  lemma MembersExist(g: Graph, k: Keynodes, view: View)
    requires Placed(g, k, view)
    ensures Exist(g, view)
  {
    forall s <- view, a <- view[s] ensures a in g { assert IsMember(g, s, a); }
  }

  // A memory holds at most one chain for a set: the view is no more than a reading of it.
  lemma ChainIsUnique(g: Graph, k: Keynodes, s: Addr, a: seq<Addr>, b: seq<Addr>)
    requires Wf(g) && Chain(g, k, s, a) && Chain(g, k, s, b)
    ensures a == b
  {
    NonEmpty(g, s, a);
    NonEmpty(g, s, b);
    if a != [] {
      assert forall x :: x in a <==> IsMember(g, s, x);
      assert a[0] in b;
      var mark :| Marks(g, mark, k.rrel1, a[0]);
      var other :| Marks(g, other, k.rrel1, b[0]);
      assert a[0] == b[0];
      SamePrefix(g, k, s, a, b, |a|);
      SamePrefix(g, k, s, b, a, |b|);
    }
  }

  lemma NonEmpty(g: Graph, s: Addr, arcs: seq<Addr>)
    requires HasMembers(g, s, arcs)
    ensures arcs != [] <==> exists a :: IsMember(g, s, a)
  {
    if arcs != [] { assert IsMember(g, s, arcs[0]); }
  }

  lemma {:induction false} SamePrefix(g: Graph, k: Keynodes, s: Addr, a: seq<Addr>, b: seq<Addr>, n: nat)
    requires Wf(g) && Chain(g, k, s, a) && Chain(g, k, s, b) && n <= |a| && a != [] && b != [] && a[0] == b[0]
    ensures a[..n] <= b
  {
    if n > 1 {
      SamePrefix(g, k, s, a, b, n - 1);
      assert a[n - 2] == a[..n - 1][n - 2] == b[n - 2];
      assert a[n - 1] == a[n - 2 + 1];
      assert Adjacent(a, a[n - 2], a[n - 1]);
      assert Follows(g, k, a[n - 2], a[n - 1]);
      assert Adjacent(b, a[n - 2], a[n - 1]);
      assert a[..n] == a[..n - 1] + [a[n - 1]];
    } else if n == 1 {
      assert a[..1] == [b[0]];
    }
  }

  // Append is snoc on its set and leaves every other set's sequence alone.
  lemma AppendRefines(g: Graph, g': Graph, k: Keynodes, view: View, s: Addr, e: Addr, ty: ScType, arc: Addr)
    requires World(g, k, view) && s in view && Appended(g, g', k, view, s, e, ty, arc)
    ensures Exist(g, view) && Exist(g', view[s := view[s] + [arc]])
    ensures Abstract(g', view[s := view[s] + [arc]]) == Abstract(g, view)[s := Abstract(g, view)[s] + [e]]
  {
    MembersExist(g, k, view);
    MembersExist(g', k, view[s := view[s] + [arc]]);
    SnocElements(g, g', view, s, e, arc);
  }

  lemma SnocElements(g: Graph, g': Graph, view: View, s: Addr, e: Addr, arc: Addr)
    requires s in view && Kept(g, g', ArcsOf(view)) && arc in g' && g'[arc].end == e
    requires Exist(g, view) && Exist(g', view[s := view[s] + [arc]])
    ensures Abstract(g', view[s := view[s] + [arc]]) == Abstract(g, view)[s := Abstract(g, view)[s] + [e]]
  {
    forall t <- view ensures Exist(g', map[t := view[t]]) && Elements(g', view[t]) == Elements(g, view[t]) {
      assert forall a <- view[t] :: a in ArcsOf(view);
    }
    assert Elements(g', view[s] + [arc]) == Elements(g', view[s]) + [e];
  }

  // Remove deletes one occurrence of the element, keeps the order of the rest, and leaves every
  // other set's sequence alone.
  lemma RemoveRefines(g: Graph, g': Graph, k: Keynodes, view: View, s: Addr, e: Addr, ty: ScType, i: nat)
    requires World(g, k, view) && s in view && Removed(g, g', k, view, s, e, ty, i)
    ensures Exist(g, view) && Exist(g', view[s := Without(view[s], i)])
    ensures i < |Abstract(g, view)[s]| && Abstract(g, view)[s][i] == e
    ensures Abstract(g', view[s := Without(view[s], i)]) == Abstract(g, view)[s := Without(Abstract(g, view)[s], i)]
  {
    MembersExist(g, k, view);
    MembersExist(g', k, view[s := Without(view[s], i)]);
    ArcFacts(g, k, view, s, view[s][i]);
    WithoutElements(g, g', view, s, i);
  }

  lemma SameElements(g: Graph, g': Graph, arcs: seq<Addr>)
    requires forall a <- arcs :: a in g && a in g' && g'[a] == g[a]
    ensures Elements(g', arcs) == Elements(g, arcs)
  {
  }

  // Where only the set `s` has changed.
  lemma OnlyOneChanged(g: Graph, g': Graph, view: View, view': View, s: Addr, elements: seq<Addr>)
    requires Exist(g, view) && Exist(g', view') && s in view && view'.Keys == view.Keys
    requires Elements(g', view'[s]) == elements
    requires forall t <- view :: t != s ==> Elements(g', view'[t]) == Elements(g, view[t])
    ensures Abstract(g', view') == Abstract(g, view)[s := elements]
  {
  }

  lemma WithoutElements(g: Graph, g': Graph, view: View, s: Addr, i: nat)
    requires s in view && i < |view[s]| && Distinct(view[s]) && Kept(g, g', ArcsOf(view) - {view[s][i]})
    requires Exist(g, view) && Exist(g', view[s := Without(view[s], i)])
    requires forall t <- view :: t != s ==> view[s][i] !in view[t]
    ensures Abstract(g', view[s := Without(view[s], i)]) == Abstract(g, view)[s := Without(Abstract(g, view)[s], i)]
  {
    var view' := view[s := Without(view[s], i)];
    ElementsWithout(g, view[s], i);
    OneSetWithout(g, g', view, s, i, s);
    forall t <- view | t != s ensures Elements(g', view'[t]) == Elements(g, view[t]) {
      OneSetWithout(g, g', view, s, i, t);
    }
    OnlyOneChanged(g, g', view, view', s, Without(Elements(g, view[s]), i));
  }

  lemma OneSetWithout(g: Graph, g': Graph, view: View, s: Addr, i: nat, t: Addr)
    requires s in view && i < |view[s]| && Distinct(view[s]) && Kept(g, g', ArcsOf(view) - {view[s][i]})
    requires t in view && (t != s ==> view[s][i] !in view[t])
    ensures
      var rest := if t == s then Without(view[s], i) else view[t];
      (forall a <- rest :: a in g && a in g') && Elements(g', rest) == Elements(g, rest)
  {
    var rest := if t == s then Without(view[s], i) else view[t];
    MembersWithout(view[s], i);
    forall a <- rest ensures a in g && a in g' && g'[a] == g[a] {
      assert a in view[t] && a in ArcsOf(view) - {view[s][i]};
    }
    SameElements(g, g', rest);
  }

  lemma ElementsWithout(g: Graph, arcs: seq<Addr>, i: nat)
    requires i < |arcs| && forall a <- arcs :: a in g
    ensures forall a <- Without(arcs, i) :: a in g
    ensures Elements(g, Without(arcs, i)) == Without(Elements(g, arcs), i)
  {
    assert forall a <- Without(arcs, i) :: a in arcs;
  }

  // An Append that fails on a non-empty set destroys its chain, so Append keeps the chain if and
  // only if the element exists or the set was empty.
  lemma FailedAppendBreaksTheChain(g: Graph, g': Graph, k: Keynodes, view: View, s: Addr)
    requires World(g, k, view) && s in view && LosesTailMark(g, g', k, view, s)
    ensures (exists arcs :: Chain(g', k, s, arcs)) <==> view[s] == []
  {
    var mark :| g' == Untailed(g, view[s], mark) && (view[s] != [] ==> TailMark(g, k, view, s, mark));
    if view[s] == [] {
      assert Chain(g', k, s, []);
    } else {
      WithoutTailMark(g, k, view, s, mark);
      WithoutTailMarkChain(g, k, view, s, mark);
      forall arcs ensures !Chain(g', k, s, arcs) { NoTailMarkNoChain(g', k, s, view[s], arcs); }
    }
  }

  lemma NoTailMarkNoChain(g: Graph, k: Keynodes, s: Addr, members: seq<Addr>, arcs: seq<Addr>)
    requires HasMembers(g, s, members) && members != [] && Unmarked(g, k.rrelLast, members)
    ensures !Chain(g, k, s, arcs)
  {
    assert IsMember(g, s, members[0]);
    assert arcs != [] || !HasMembers(g, s, arcs);
    if HasMembers(g, s, arcs) {
      var tail := arcs[|arcs| - 1];
      assert IsMember(g, s, tail);
      assert forall m :: !Marks(g, m, k.rrelLast, tail);
    }
  }

  // An arc without the bits of a positive constant arc makes no member, and it takes the tail's mark
  // away from the last one: the set keeps its members, and a chain only if it had none.
  lemma AppendNeedsAPositiveArc(
      g: Graph, g': Graph, k: Keynodes, view: View, s: Addr, e: Addr, ty: ScType, arc: Addr)
    requires World(g, k, view) && s in view && ConnectorType(ty) && !MembershipType(ty)
    requires Draws(g, g', k, view, s, e, ty, arc)
    ensures HasMembers(g', s, view[s]) && arc !in view[s]
    ensures (exists arcs :: Chain(g', k, s, arcs)) <==> view[s] == []
  {
    var mark, f: Fresh :| DrawsAs(g, g', k, view, s, e, ty, mark, f) && f.n == arc;
    if view[s] == [] {
      assert forall a :: IsMember(g', s, a) <==> IsMember(g, s, a);
      assert Chain(g', k, s, []);
    } else {
      WithoutTailMark(g, k, view, s, mark);
      WithoutTailMarkChain(g, k, view, s, mark);
      StrayKeepsMembers(Del(g, {mark}), g', k, view, s, e, ty, f);
      forall arcs ensures !Chain(g', k, s, arcs) { NoTailMarkNoChain(g', k, s, view[s], arcs); }
    }
  }

  lemma StrayKeepsMembers(
      g: Graph, g': Graph, k: Keynodes, view: View, s: Addr, e: Addr, ty: ScType, f: Fresh)
    requires WorldBut(g, k, view, s) && view[s] != [] && Unmarked(g, k.rrelLast, view[s])
    requires !HasSubtype(ty, CONST_POS_ARC) && AllFreshIn(f, g)
    requires g' == AppendedNext(g, k, s, view[s][|view[s]| - 1], e, ty, f)
    ensures HasMembers(g', s, view[s]) && Unmarked(g', k.rrelLast, view[s]) && f.n !in view[s]
  {
    var tail := view[s][|view[s]| - 1];
    ArcFacts(g, k, view, s, tail);
    forall a ensures IsMember(g', s, a) <==> IsMember(g, s, a) {
    }
    forall mark, x | x in view[s] ensures !Marks(g', mark, k.rrelLast, x) {
      assert IsMember(g, s, x) && !Marks(g, mark, k.rrelLast, x);
    }
  }

  // ---- Roles ----

  // The roles of members, those of the chain apart, are what they were: after Append ...
  lemma AppendKeepsRoles(
      g: Graph, g': Graph, k: Keynodes, view: View, s: Addr, e: Addr, ty: ScType, arc: Addr, role: Addr, a: Addr,
      mask: ScType)
    requires World(g, k, view) && s in view && Draws(g, g', k, view, s, e, ty, arc)
    requires role in g && !IsConnector(g[role].ty) && role !in k.All() && a in ArcsOf(view) && e !in ArcsOf(view)
    ensures Connected(g', role, a, mask) <==> Connected(g, role, a, mask)
  {
    var mark, f: Fresh :| DrawsAs(g, g', k, view, s, e, ty, mark, f) && f.n == arc;
    if view[s] == [] {
      ConnectedBesideFirst(g, k, s, e, ty, f, role, a, mask);
    } else {
      var tail := view[s][|view[s]| - 1];
      TailMarkIsAside(g, k, view, s, mark, role, a);
      NodeStaysConnected(g, mark, role, a, mask);
      ConnectedBesideNext(Del(g, {mark}), k, s, tail, e, ty, f, role, a, mask);
    }
  }

  lemma TailMarkIsAside(g: Graph, k: Keynodes, view: View, s: Addr, mark: Addr, role: Addr, a: Addr)
    requires Placed(g, k, view) && TailMark(g, k, view, s, mark)
    requires role in g && !IsConnector(g[role].ty) && role !in k.All() && a in ArcsOf(view)
    ensures a !in Cascade(g, {mark}) && role != mark && role != view[s][|view[s]| - 1] && g[mark].begin != role
  {
    CommonArcs();
    TailMarkCascade(g, k, view, s, mark);
    ArcFacts(g, k, view, s, view[s][|view[s]| - 1]);
  }

  // ... and after Remove.
  lemma RemoveKeepsRoles(
      g: Graph, g': Graph, k: Keynodes, view: View, s: Addr, ty: ScType, i: nat, role: Addr, a: Addr, mask: ScType)
    requires World(g, k, view) && s in view && i < |view[s]| && Mends(g, g', k, view[s], ty, i)
    requires role in g && !IsConnector(g[role].ty) && role !in k.All() && role != s
    requires a in ArcsOf(view) && a != view[s][i]
    ensures Connected(g', role, a, mask) <==> Connected(g, role, a, mask)
  {
    var x, y :| MendsAs(g, g', k, view[s], ty, i, x, y);
    RemovedArcIsAside(g, k, view, s, i, role, a);
    NodeStaysConnected(g, view[s][i], role, a, mask);
    ConnectedBesideRepair(Del(g, {view[s][i]}), k, view[s], i, ty, x, y, role, a, mask);
  }

  lemma RemovedArcIsAside(g: Graph, k: Keynodes, view: View, s: Addr, i: nat, role: Addr, a: Addr)
    requires Placed(g, k, view) && s in view && i < |view[s]|
    requires role in g && !IsConnector(g[role].ty) && role != s && a in ArcsOf(view) && a != view[s][i]
    ensures a !in Cascade(g, {view[s][i]}) && role != view[s][i] && (i > 0 ==> role != view[s][i - 1])
    ensures view[s][i] in g && g[view[s][i]].begin != role
  {
    var x := view[s][i];
    ArcFacts(g, k, view, s, x);
    if i > 0 {
      ArcFacts(g, k, view, s, view[s][i - 1]);
    }
    SparedByArc(g, view, x, a);
  }
}
