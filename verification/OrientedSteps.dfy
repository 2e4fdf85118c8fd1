// What one call of Append or Remove does to a world, its traversability included.
module OrientedSteps {
  import opened ScTypes
  import opened ScGraph
  import opened OrientedChain
  import opened OrientedWorld

  // Connectors from `begin` to `end` that an iterator with this mask finds.
  predicate Connected(g: Graph, begin: Addr, end: Addr, mask: ScType) {
    exists m <- g :: g[m].begin == begin && g[m].end == end && HasSubtype(g[m].ty, mask)
  }

  // `Reset` accepts only a permanent rrel_1 mark.
  predicate HeadVisible(g: Graph, k: Keynodes, a: Addr) {
    Connected(g, k.rrel1, a, CONST_PERM_POS_ARC)
  }

  ghost predicate Traversable(g: Graph, k: Keynodes, arcs: seq<Addr>) {
    arcs == [] || HeadVisible(g, k, arcs[0])
  }

  // The arcs of the view are in g' as they were in g.
  ghost predicate Kept(g: Graph, g': Graph, arcs: set<Addr>) {
    forall a <- arcs :: a in g && a in g' && g'[a] == g[a]
  }

  lemma ConnectedAdd(g: Graph, begin: Addr, end: Addr, mask: ScType, n: Addr, el: Element)
    requires n !in g
    ensures Connected(g[n := el], begin, end, mask) <==>
            Connected(g, begin, end, mask) || (el.begin == begin && el.end == end && HasSubtype(el.ty, mask))
  {
    var g' := g[n := el];
    if Connected(g, begin, end, mask) {
      var m :| m in g && g[m].begin == begin && g[m].end == end && HasSubtype(g[m].ty, mask);
      assert m in g' && g'[m].begin == begin;
    }
    assert n in g' && g'[n] == el;
  }

  lemma ConnectedDel(g: Graph, begin: Addr, end: Addr, mask: ScType, x: Addr)
    requires Wf(g) && Cascade(g, {x}) !! {begin, end} && begin != EMPTY
    requires x in g ==> g[x].begin != begin || g[x].end != end
    ensures Connected(Del(g, {x}), begin, end, mask) <==> Connected(g, begin, end, mask)
  {
    var g' := Del(g, {x});
    if Connected(g, begin, end, mask) {
      var m :| m in g && g[m].begin == begin && g[m].end == end && HasSubtype(g[m].ty, mask);
      Survives(g, x, m);
      assert m in g' && g'[m].begin == begin;
    }
  }

  // What an erasure has to spare for a node to stay connected.
  lemma NodeStaysConnected(g: Graph, x: Addr, role: Addr, a: Addr, mask: ScType)
    requires Wf(g) && role in g && !IsConnector(g[role].ty) && role != x && a !in Cascade(g, {x})
    requires x in g ==> g[x].begin != role || g[x].end != a
    ensures Connected(Del(g, {x}), role, a, mask) <==> Connected(g, role, a, mask)
  {
    if role in Cascade(g, {x}) {
      CascadeHangs(g, {x}, role);
    }
    ConnectedDel(g, role, a, mask, x);
  }

  // The arcs that Append and Remove draw connect nothing else.
  lemma ConnectedBesideTail(
      g: Graph, k: Keynodes, s: Addr, e: Addr, ty: ScType, f: Fresh, role: Addr, a: Addr, mask: ScType)
    requires FreshIn(f, g) && (role != s || a != e) && role != k.rrelLast
    ensures Connected(WithTail(g, k, s, e, ty, f), role, a, mask) <==> Connected(g, role, a, mask)
  {
    ConnectedAdd(g, role, a, mask, f.n, Arc(ty, s, e));
    ConnectedAdd(g[f.n := Arc(ty, s, e)], role, a, mask, f.last, Arc(CONST_ACTUAL_TEMP_POS_ARC, k.rrelLast, f.n));
  }

  lemma ConnectedBesideFirst(
      g: Graph, k: Keynodes, s: Addr, e: Addr, ty: ScType, f: Fresh, role: Addr, a: Addr, mask: ScType)
    requires FreshIn(f, g) && (role != s || a != e) && role !in k.All()
    ensures Connected(AppendedFirst(g, k, s, e, ty, f), role, a, mask) <==> Connected(g, role, a, mask)
  {
    ConnectedBesideTail(g, k, s, e, ty, f, role, a, mask);
    ConnectedAdd(WithTail(g, k, s, e, ty, f), role, a, mask, f.x, Arc(ty, k.rrel1, f.n));
  }

  lemma ConnectedBesideNext(
      g: Graph, k: Keynodes, s: Addr, tail: Addr, e: Addr, ty: ScType, f: Fresh, role: Addr, a: Addr, mask: ScType)
    requires AllFreshIn(f, g) && (role != s || a != e) && role !in {k.rrelLast, k.basicSequence, tail}
    ensures Connected(AppendedNext(g, k, s, tail, e, ty, f), role, a, mask) <==> Connected(g, role, a, mask)
  {
    var g2, link := WithTail(g, k, s, e, ty, f), Arc(CONST_COMMON_ARC, tail, f.n);
    ConnectedBesideTail(g, k, s, e, ty, f, role, a, mask);
    ConnectedAdd(g2, role, a, mask, f.x, link);
    ConnectedAdd(g2[f.x := link], role, a, mask, f.y, Arc(ty, k.basicSequence, f.x));
  }

  lemma ConnectedBesideRepair(
      g: Graph, k: Keynodes, arcs: seq<Addr>, i: nat, ty: ScType, x: Addr, y: Addr, role: Addr, a: Addr, mask: ScType)
    requires i < |arcs| && x !in g && y !in g && x != y && role !in {k.rrelLast, k.basicSequence}
    requires if i == 0 then role != k.rrel1 else role != arcs[i - 1]
    ensures Connected(Repaired(g, k, arcs, i, ty, x, y), role, a, mask) <==> Connected(g, role, a, mask)
  {
    if 0 < i < |arcs| - 1 {
      var link := Arc(CONST_COMMON_ARC, arcs[i - 1], arcs[i + 1]);
      ConnectedAdd(g, role, a, mask, x, link);
      ConnectedAdd(g[x := link], role, a, mask, y, Arc(ty, k.basicSequence, x));
    } else if |arcs| > 1 {
      ConnectedAdd(
        g, role, a, mask, x,
        if i == 0 then Arc(ty, k.rrel1, arcs[1]) else Arc(CONST_ACTUAL_TEMP_POS_ARC, k.rrelLast, arcs[i - 1]));
    }
  }

  // ---- Append ----

  ghost function Untailed(g: Graph, arcs: seq<Addr>, mark: Addr): Graph {
    if arcs == [] then g else Del(g, {mark})
  }

  ghost predicate Appended(
      g: Graph, g': Graph, k: Keynodes, view: View, s: Addr, e: Addr, ty: ScType, arc: Addr)
    requires s in view
  {
    && World(g', k, view[s := view[s] + [arc]])
    && Kept(g, g', ArcsOf(view))
    && arc in g' && g'[arc] == Arc(ty, s, e)
    && (Traversable(g', k, view[s] + [arc]) <==>
        if view[s] == [] then HasSubtype(ty, CONST_PERM_POS_ARC) else Traversable(g, k, view[s]))
  }

  lemma UntailedFacts(g: Graph, k: Keynodes, view: View, s: Addr, mark: Addr, e: Addr)
    requires World(g, k, view) && s in view
    requires e !in Cascade(g, ArcsOf(view)) && (view[s] != [] ==> TailMark(g, k, view, s, mark))
    ensures
      var g0 := Untailed(g, view[s], mark);
      && Wf(g0) && s in g0 && k.All() <= g0.Keys && (forall a <- view[s] :: a in g0 && a != EMPTY)
      && (e in g <==> e in g0)
  {
    assert forall a <- view[s] :: a in ArcsOf(view);
    if view[s] != [] {
      WithoutTailMark(g, k, view, s, mark);
      TailMarkCascade(g, k, view, s, mark);
    }
  }

  lemma AppendedFirstIs(g: Graph, k: Keynodes, view: View, s: Addr, e: Addr, ty: ScType, f: Fresh)
    requires World(g, k, view) && s in view && view[s] == []
    requires Appendable(g, view, e) && MembershipType(ty) && FreshIn(f, g)
    ensures Appended(g, AppendedFirst(g, k, s, e, ty, f), k, view, s, e, ty, f.n)
  {
    AppendedFirstWorld(g, k, view, s, e, ty, f);
    AppendedFirstVisible(g, k, s, e, ty, f);
    assert (view[s] + [f.n])[0] == f.n;
  }

  lemma AppendedFirstVisible(g: Graph, k: Keynodes, s: Addr, e: Addr, ty: ScType, f: Fresh)
    requires Ready(g, k) && s !in k.All() && e in g && FreshIn(f, g)
    ensures HeadVisible(AppendedFirst(g, k, s, e, ty, f), k, f.n) <==> HasSubtype(ty, CONST_PERM_POS_ARC)
  {
    FreshUnmarked(g, f.n, Arc(ty, s, e), k.rrel1);
    var g1, lastMark := g[f.n := Arc(ty, s, e)], Arc(CONST_ACTUAL_TEMP_POS_ARC, k.rrelLast, f.n);
    ConnectedAdd(g1, k.rrel1, f.n, CONST_PERM_POS_ARC, f.last, lastMark);
    ConnectedAdd(g1[f.last := lastMark], k.rrel1, f.n, CONST_PERM_POS_ARC, f.x, Arc(ty, k.rrel1, f.n));
    UnmarkedInvisible(g1, k, [f.n], f.n);
  }

  lemma UnmarkedInvisible(g: Graph, k: Keynodes, arcs: seq<Addr>, a: Addr)
    requires Unmarked(g, k.rrel1, arcs) && a in arcs
    ensures !HeadVisible(g, k, a)
  {
    assert forall t: ScType :: HasSubtype(t, CONST_PERM_POS_ARC) ==> HasSubtype(t, CONST_POS_ARC);
    assert forall m <- g :: !Marks(g, m, k.rrel1, a);
  }

  lemma AppendedNextIs(
      g: Graph, k: Keynodes, view: View, s: Addr, r: Addr, e: Addr, ty: ScType, f: Fresh)
    requires World(g, k, view) && TailMark(g, k, view, s, r)
    requires Appendable(g, view, e) && MembershipType(ty) && AllFreshIn(f, Del(g, {r}))
    ensures Appended(
      g, AppendedNext(Del(g, {r}), k, s, view[s][|view[s]| - 1], e, ty, f), k, view, s, e, ty, f.n)
  {
    AppendedNextWorld(g, k, view, s, r, e, ty, f);
    AppendedNextRest(g, k, view, s, r, e, ty, f);
  }

  // All of it but that the world is intact.
  lemma AppendedNextRest(
      g: Graph, k: Keynodes, view: View, s: Addr, r: Addr, e: Addr, ty: ScType, f: Fresh)
    requires Placed(g, k, view) && TailMark(g, k, view, s, r) && AllFreshIn(f, Del(g, {r}))
    ensures
      var g' := AppendedNext(Del(g, {r}), k, s, view[s][|view[s]| - 1], e, ty, f);
      && Kept(g, g', ArcsOf(view)) && f.n in g' && g'[f.n] == Arc(ty, s, e)
      && (Traversable(g', k, view[s] + [f.n]) <==> Traversable(g, k, view[s]))
  {
    AppendedNextKept(g, k, view, s, r, e, ty, f);
    AppendedNextVisible(g, k, view, s, r, e, ty, f);
    assert (view[s] + [f.n])[0] == view[s][0];
  }

  lemma AppendedNextKept(
      g: Graph, k: Keynodes, view: View, s: Addr, r: Addr, e: Addr, ty: ScType, f: Fresh)
    requires Placed(g, k, view) && TailMark(g, k, view, s, r) && AllFreshIn(f, Del(g, {r}))
    ensures Kept(g, AppendedNext(Del(g, {r}), k, s, view[s][|view[s]| - 1], e, ty, f), ArcsOf(view))
  {
    TailMarkCascade(g, k, view, s, r);
  }

  lemma AppendedNextVisible(
      g: Graph, k: Keynodes, view: View, s: Addr, r: Addr, e: Addr, ty: ScType, f: Fresh)
    requires Placed(g, k, view) && TailMark(g, k, view, s, r) && AllFreshIn(f, Del(g, {r}))
    ensures HeadVisible(AppendedNext(Del(g, {r}), k, s, view[s][|view[s]| - 1], e, ty, f), k, view[s][0])
            <==> HeadVisible(g, k, view[s][0])
  {
    var head, tail := view[s][0], view[s][|view[s]| - 1];
    TailMarkSparesHead(g, k, view, s, r);
    NodeStaysConnected(g, r, k.rrel1, head, CONST_PERM_POS_ARC);
    ConnectedBesideNext(Del(g, {r}), k, s, tail, e, ty, f, k.rrel1, head, CONST_PERM_POS_ARC);
  }

  lemma TailMarkSparesHead(g: Graph, k: Keynodes, view: View, s: Addr, r: Addr)
    requires Placed(g, k, view) && TailMark(g, k, view, s, r)
    ensures view[s][0] !in Cascade(g, {r}) && r != k.rrel1 && g[r].begin != k.rrel1
    ensures k.rrel1 !in {s, k.rrelLast, k.basicSequence, view[s][|view[s]| - 1]}
  {
    CommonArcs();
    TailMarkCascade(g, k, view, s, r);
    ArcFacts(g, k, view, s, view[s][0]);
    ArcFacts(g, k, view, s, view[s][|view[s]| - 1]);
  }

  // ---- Remove ----

  // Everything erased so far on behalf of the arc `a` would have gone with it.
  ghost predicate Shedding(g: Graph, now: Graph, a: Addr, gone: set<Addr>) {
    Wf(g) && now == Del(g, gone) && gone <= Cascade(g, {a})
  }

  lemma ShedMore(g: Graph, now: Graph, a: Addr, gone: set<Addr>, x: Addr)
    requires Shedding(g, now, a, gone) && x in Cascade(g, {a})
    ensures Shedding(g, Del(now, {x}), a, gone + {x})
  {
    DelDel(g, gone, {x});
  }

  lemma ShedAll(g: Graph, now: Graph, a: Addr, gone: set<Addr>)
    requires Shedding(g, now, a, gone)
    ensures Del(now, {a}) == Del(g, {a})
  {
    DelDel(g, gone, {a});
    CascadeClosed(g, {a});
    CascadeMonotone(g, gone + {a}, {a});
    CascadeClosed(g, gone + {a});
    CascadeMonotone(g, {a}, gone + {a});
  }

  lemma OnArc(g: Graph, a: Addr, x: Addr)
    requires x in g && a != EMPTY && g[x].begin != EMPTY && (g[x].begin == a || g[x].end == a)
    ensures x in Cascade(g, {a})
    ensures forall y <- g :: g[y].begin != EMPTY && g[y].end == x ==> y in Cascade(g, {a})
  {
    CascadeClosed(g, {a});
    assert Hangs(g[x], Cascade(g, {a}));
    assert forall y <- g :: g[y].begin != EMPTY && g[y].end == x ==> Hangs(g[y], Cascade(g, {a}));
  }

  ghost predicate Removed(g: Graph, g': Graph, k: Keynodes, view: View, s: Addr, e: Addr, ty: ScType, i: nat)
    requires s in view
  {
    && i < |view[s]| && view[s][i] in g && g[view[s][i]].end == e && HasSubtype(g[view[s][i]].ty, ty)
    && World(g', k, view[s := Without(view[s], i)])
    && Kept(g, g', ArcsOf(view) - {view[s][i]})
    && (Traversable(g', k, Without(view[s], i)) <==>
        || |view[s]| == 1
        || (if i == 0 then HasSubtype(ty, CONST_PERM_POS_ARC) else Traversable(g, k, view[s])))
  }

  // The repair that Remove makes in `g`, the memory without the member i of `arcs`.
  function Repaired(g: Graph, k: Keynodes, arcs: seq<Addr>, i: nat, ty: ScType, x: Addr, y: Addr): Graph
    requires i < |arcs|
  {
    if 0 < i < |arcs| - 1 then
      g[x := Arc(CONST_COMMON_ARC, arcs[i - 1], arcs[i + 1])][y := Arc(ty, k.basicSequence, x)]
    else if |arcs| == 1 then g
    else if i == 0 then g[x := Arc(ty, k.rrel1, arcs[1])]
    else g[x := Arc(CONST_ACTUAL_TEMP_POS_ARC, k.rrelLast, arcs[i - 1])]
  }

  lemma RepairedWorld(
      g: Graph, k: Keynodes, view: View, s: Addr, i: nat, ty: ScType, x: Addr, y: Addr)
    requires World(g, k, view) && s in view && i < |view[s]| && MembershipType(ty)
    requires EMPTY !in {x, y} && x !in Del(g, {view[s][i]}) && y !in Del(g, {view[s][i]}) && x != y
    ensures World(
      Repaired(Del(g, {view[s][i]}), k, view[s], i, ty, x, y), k, view[s := Without(view[s], i)])
  {
    RemovedGap(g, k, view, s, i);
    CloseGap(Del(g, {view[s][i]}), k, view[s := Without(view[s], i)], s, view[s], i, ty, x, y);
  }

  lemma CloseGap(
      g: Graph, k: Keynodes, view: View, s: Addr, arcs: seq<Addr>, i: nat, ty: ScType, x: Addr, y: Addr)
    requires Gap(g, k, view, s, arcs, i) && MembershipType(ty)
    requires EMPTY !in {x, y} && x !in g && y !in g && x != y
    ensures World(Repaired(g, k, arcs, i, ty, x, y), k, view)
  {
    if 0 < i < |arcs| - 1 {
      CloseMiddle(g, k, view, s, arcs, i, x, y, ty);
    } else if |arcs| == 1 {
      CloseEmpty(g, k, view, s, arcs);
    } else if i == 0 {
      CloseEnd(g, k, view, s, arcs, i, x, ty);
    } else {
      CloseEnd(g, k, view, s, arcs, i, x, CONST_ACTUAL_TEMP_POS_ARC);
    }
  }

  lemma RepairedKept(g: Graph, k: Keynodes, view: View, s: Addr, i: nat, ty: ScType, x: Addr, y: Addr)
    requires Placed(g, k, view) && s in view && i < |view[s]|
    requires x !in Del(g, {view[s][i]}) && y !in Del(g, {view[s][i]})
    ensures Kept(
      g, Repaired(Del(g, {view[s][i]}), k, view[s], i, ty, x, y), ArcsOf(view) - {view[s][i]})
  {
    ArcLoose(g, k, view, s, view[s][i]);
    forall a <- ArcsOf(view) - {view[s][i]} ensures a in Del(g, {view[s][i]}) {
      assert a !in Cascade(g, {view[s][i]}) * (ArcsOf(view) + view.Keys + k.All());
    }
  }

  lemma RepairedVisible(g: Graph, k: Keynodes, view: View, s: Addr, i: nat, ty: ScType, x: Addr, y: Addr)
    requires World(g, k, view) && s in view && i < |view[s]|
    requires x !in Del(g, {view[s][i]}) && y !in Del(g, {view[s][i]}) && x != y
    ensures
      Traversable(Repaired(Del(g, {view[s][i]}), k, view[s], i, ty, x, y), k, Without(view[s], i)) <==>
        || |view[s]| == 1
        || (if i == 0 then HasSubtype(ty, CONST_PERM_POS_ARC) else Traversable(g, k, view[s]))
  {
    var arcs, rest := view[s], Without(view[s], i);
    var g0 := Del(g, {arcs[i]});
    if |arcs| > 1 {
      EndsWithout(arcs, i);
      ArcLoose(g, k, view, s, arcs[i]);
      if i == 0 {
        BrokenChain(g, k, s, arcs, i);
        UnmarkedInvisible(g0, k, rest, rest[0]);
        ConnectedAdd(g0, k.rrel1, rest[0], CONST_PERM_POS_ARC, x, Arc(ty, k.rrel1, arcs[1]));
      } else {
        HeadStaysVisible(g, k, view, s, i, ty, x, y);
      }
    }
  }

  lemma HeadStaysVisible(g: Graph, k: Keynodes, view: View, s: Addr, i: nat, ty: ScType, x: Addr, y: Addr)
    requires Placed(g, k, view) && s in view && 0 < i < |view[s]|
    requires x !in Del(g, {view[s][i]}) && y !in Del(g, {view[s][i]}) && x != y
    ensures HeadVisible(Repaired(Del(g, {view[s][i]}), k, view[s], i, ty, x, y), k, view[s][0])
            <==> HeadVisible(g, k, view[s][0])
  {
    var head := view[s][0];
    ArcSparesHead(g, k, view, s, i);
    NodeStaysConnected(g, view[s][i], k.rrel1, head, CONST_PERM_POS_ARC);
    ConnectedBesideRepair(
      Del(g, {view[s][i]}), k, view[s], i, ty, x, y, k.rrel1, head, CONST_PERM_POS_ARC);
  }

  lemma ArcSparesHead(g: Graph, k: Keynodes, view: View, s: Addr, i: nat)
    requires Placed(g, k, view) && s in view && 0 < i < |view[s]|
    ensures view[s][0] !in Cascade(g, {view[s][i]}) && view[s][i] in g && g[view[s][i]].begin != k.rrel1
    ensures k.rrel1 !in {k.rrelLast, k.basicSequence, view[s][i], view[s][i - 1]}
  {
    ArcFacts(g, k, view, s, view[s][0]);
    ArcFacts(g, k, view, s, view[s][i]);
    ArcFacts(g, k, view, s, view[s][i - 1]);
    assert Distinct(view[s]);
    SparedByArc(g, view, view[s][i], view[s][0]);
  }

  lemma RepairedIs(
      g: Graph, k: Keynodes, view: View, s: Addr, i: nat, ty: ScType, x: Addr, y: Addr)
    requires World(g, k, view) && s in view && i < |view[s]| && MembershipType(ty)
    requires view[s][i] in g && HasSubtype(g[view[s][i]].ty, ty)
    requires EMPTY !in {x, y} && x !in Del(g, {view[s][i]}) && y !in Del(g, {view[s][i]}) && x != y
    ensures Removed(
      g, Repaired(Del(g, {view[s][i]}), k, view[s], i, ty, x, y), k, view, s, g[view[s][i]].end, ty, i)
  {
    RepairedWorld(g, k, view, s, i, ty, x, y);
    RepairedKept(g, k, view, s, i, ty, x, y);
    RepairedVisible(g, k, view, s, i, ty, x, y);
  }
}
