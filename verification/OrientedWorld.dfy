// All the oriented sets of one memory together. `view` gives each set its chain of membership
// arcs; a world is a memory in which every set of the view is intact and no set, and no set's arc
// or element, hangs on another set's arc.
module OrientedWorld {
  import opened ScTypes
  import opened ScGraph
  import opened OrientedChain

  type View = map<Addr, seq<Addr>>

  ghost function ArcsOf(view: View): set<Addr> {
    set s <- view, a <- view[s] :: a
  }

  // No set's arcs or sets hang on an arc, nor do the arc's own endpoints.
  ghost predicate Free(g: Graph, view: View) {
    && view.Keys !! ArcsOf(view)
    && forall a <- ArcsOf(view) ::
         a in g && Cascade(g, {a}) * (ArcsOf(view) + view.Keys) == {a} && g[a].end !in Cascade(g, {a})
  }

  // The sets of the view, none of them a keynode, have the members the view gives them.
  ghost predicate Placed(g: Graph, k: Keynodes, view: View) {
    && Ready(g, k) && Free(g, view)
    && forall t <- view :: t in g && t !in k.All() && HasMembers(g, t, view[t])
  }

  // A world whose set `s` has its members, whatever their marks and sequence.
  ghost predicate WorldBut(g: Graph, k: Keynodes, view: View, s: Addr) {
    Placed(g, k, view) && s in view && forall t <- view :: t != s ==> Chain(g, k, t, view[t])
  }

  ghost predicate World(g: Graph, k: Keynodes, view: View) {
    Placed(g, k, view) && forall t <- view :: Chain(g, k, t, view[t])
  }

  lemma ArcFacts(g: Graph, k: Keynodes, view: View, s: Addr, a: Addr)
    requires Placed(g, k, view) && s in view && a in view[s]
    ensures a in ArcsOf(view) && IsMember(g, s, a) && IsConnector(g[a].ty) && a !in view && a !in k.All()
    ensures forall t <- view :: t != s ==> a !in view[t]
    ensures s !in ArcsOf(view) && forall t <- view :: s !in view[t]
  {
    CommonArcs();
    forall t <- view ensures (t != s ==> a !in view[t]) && s !in view[t] {
      assert a !in view[t] || IsMember(g, t, a);
      assert s !in view[t] || s in ArcsOf(view);
    }
  }

  lemma KeysNotInCascade(g: Graph, k: Keynodes, x: Addr)
    requires Ready(g, k) && x !in k.All()
    ensures Cascade(g, {x}) !! k.All()
  {
    forall y <- k.All() ensures y !in Cascade(g, {x}) {
      if y in Cascade(g, {x}) {
        CascadeHangs(g, {x}, y);
      }
    }
  }

  lemma CascadeOfDel(g: Graph, gone: set<Addr>, roots: set<Addr>)
    ensures Cascade(Del(g, gone), roots) <= Cascade(g, roots)
  {
    CascadeClosed(g, roots);
    CascadeLeast(Del(g, gone), roots, Cascade(g, roots));
  }

  lemma ReadyDel(g: Graph, k: Keynodes, x: Addr)
    requires Ready(g, k) && x !in k.All()
    ensures Ready(Del(g, {x}), k)
  {
    DelWf(g, {x});
    KeysNotInCascade(g, k, x);
  }

  // ---- Adding one connector that concerns no set but `s` ----

  ghost predicate ConcernsOnly(g: Graph, k: Keynodes, view: View, s: Addr, el: Element) {
    && el.begin !in view.Keys
    && forall t <- view :: t != s ==> Unrelated(g, k, t, view[t], el)
  }

  lemma FreeAdd(g: Graph, view: View, n: Addr, el: Element)
    requires Wf(g) && n !in g && Wf(g[n := el]) && Free(g, view) && view.Keys <= g.Keys
    ensures Free(g[n := el], view)
  {
    forall a <- ArcsOf(view)
      ensures Cascade(g[n := el], {a}) * (ArcsOf(view) + view.Keys) == {a}
      ensures g[a].end !in Cascade(g[n := el], {a})
    {
      CascadeOfBase(g, g[n := el], {n}, {a});
      CascadeClosed(g, {a});
    }
  }

  lemma WorldButAdd(g: Graph, k: Keynodes, view: View, s: Addr, n: Addr, el: Element)
    requires WorldBut(g, k, view, s) && n !in g && n != EMPTY
    requires ConnectorType(el.ty) && el.begin in g && el.end in g
    requires ConcernsOnly(g, k, view, s, el)
    ensures WorldBut(g[n := el], k, view, s)
  {
    FreeAdd(g, view, n, el);
    MembersAdd(g, s, view[s], n, el);
    forall t <- view | t != s ensures Chain(g[n := el], k, t, view[t]) {
      ChainAdd(g, k, t, view[t], n, el);
    }
  }

  lemma WorldAdd(g: Graph, k: Keynodes, view: View, n: Addr, el: Element)
    requires World(g, k, view) && n !in g && n != EMPTY
    requires ConnectorType(el.ty) && el.begin in g && el.end in g
    requires forall t <- view :: Unrelated(g, k, t, view[t], el)
    ensures World(g[n := el], k, view)
  {
    FreeAdd(g, view, n, el);
    forall t <- view ensures Chain(g[n := el], k, t, view[t]) {
      ChainAdd(g, k, t, view[t], n, el);
    }
  }

  lemma ArcsOfGrown(view: View, s: Addr, arcs: seq<Addr>)
    requires s !in view || view[s] <= arcs
    ensures ArcsOf(view[s := arcs]) == ArcsOf(view) + Members(arcs)
  {
    var view' := view[s := arcs];
    forall a ensures a in ArcsOf(view') <==> a in ArcsOf(view) + Members(arcs) {
      if a in ArcsOf(view) {
        var t :| t in view && a in view[t];
        assert a in view'[t];
      }
      if a in Members(arcs) { assert a in view'[s]; }
      if a in ArcsOf(view') {
        var t :| t in view' && a in view'[t];
        assert t == s || a in view[t];
      }
    }
  }

  // A memory with the three keynodes is a world without sets.
  lemma WorldBegins(g: Graph, k: Keynodes)
    requires Wf(g) && k.rrel1 != k.rrelLast && k.rrel1 != k.basicSequence && k.rrelLast != k.basicSequence
    requires k.rrel1 in g && k.rrelLast in g && k.basicSequence in g
    requires g[k.rrel1] == g[k.rrelLast] == g[k.basicSequence] == Node(CONST_NODE)
    ensures World(g, k, map[])
  {
    assert !IsConnector(CONST_NODE) && HasSubtype(CONST_NODE, CONST_NODE);
  }

  // A set that has no members yet joins the view.
  lemma WorldNewSet(g: Graph, k: Keynodes, view: View, s: Addr)
    requires World(g, k, view) && s in g && s !in k.All() && s !in view
    requires forall a :: !IsMember(g, s, a)
    requires s !in Cascade(g, ArcsOf(view))
    ensures World(g, k, view[s := []])
  {
    ArcsOfGrown(view, s, []);
    FreeNewSet(g, view, s);
    assert forall a, b :: !Adjacent([], a, b);
    assert Chain(g, k, s, []);
  }

  lemma FreeNewSet(g: Graph, view: View, s: Addr)
    requires Free(g, view) && s !in view && s !in Cascade(g, ArcsOf(view))
    ensures Free(g, view[s := []])
  {
    ArcsOfGrown(view, s, []);
    var arcs := ArcsOf(view);
    CascadeClosed(g, arcs);
    forall a <- arcs ensures s !in Cascade(g, {a}) {
      CascadeMonotone(g, {a}, arcs);
    }
    assert (view[s := []]).Keys == view.Keys + {s};
  }

  // ---- Growing ----

  // A new arc from s to e does not change what hangs on `a` when neither endpoint hangs on it.
  lemma CascadeUnchanged(g: Graph, n: Addr, el: Element, a: Addr)
    requires Wf(g) && n !in g && Wf(g[n := el]) && a in g
    requires el.begin in g && el.begin !in Cascade(g, {a}) && el.end in g && el.end !in Cascade(g, {a})
    ensures Cascade(g[n := el], {a}) == Cascade(g, {a})
  {
    var g' := g[n := el];
    CascadeOfBase(g, g', {n}, {a});
    CascadeClosed(g, {a});
    if n in Cascade(g', {a}) { CascadeHangs(g', {a}, n); }
  }

  lemma OldArcAfterSnoc(g: Graph, view: View, s: Addr, n: Addr, el: Element, a: Addr)
    requires Wf(g) && n !in g && Wf(g[n := el]) && Free(g, view) && view.Keys <= g.Keys && s in view
    requires el.begin == s && el.end in g && el.end !in Cascade(g, ArcsOf(view))
    requires a in ArcsOf(view)
    ensures Cascade(g[n := el], {a}) == Cascade(g, {a}) && n !in Cascade(g, {a})
  {
    var c, arcs := Cascade(g, {a}), ArcsOf(view);
    CascadeClosed(g, arcs);
    CascadeClosed(g, {a});
    CascadeMonotone(g, {a}, arcs);
    assert s != a && (s in c ==> s in c * (arcs + view.Keys));
    CascadeUnchanged(g, n, el, a);
  }

  lemma ArcsOfSnoc(view: View, s: Addr, n: Addr)
    requires s in view
    ensures ArcsOf(view[s := view[s] + [n]]) == ArcsOf(view) + {n}
  {
    ArcsOfGrown(view, s, view[s] + [n]);
    assert forall a <- view[s] :: a in ArcsOf(view);
  }

  lemma FreeSnoc(g: Graph, view: View, s: Addr, n: Addr, el: Element)
    requires Wf(g) && n !in g && Wf(g[n := el]) && Free(g, view) && view.Keys <= g.Keys && s in view
    requires el.begin == s && el.end in g && el.end !in Cascade(g, ArcsOf(view))
    ensures Free(g[n := el], view[s := view[s] + [n]])
  {
    var g', view' := g[n := el], view[s := view[s] + [n]];
    var arcs := ArcsOf(view);
    ArcsOfSnoc(view, s, n);
    assert view'.Keys == view.Keys;
    DelAdded(g, g', {n});
    forall a <- arcs
      ensures Cascade(g', {a}) * (arcs + {n} + view.Keys) == {a} && g'[a].end !in Cascade(g', {a})
    {
      OldArcAfterSnoc(g, view, s, n, el, a);
      assert Cascade(g, {a}) * (arcs + {n} + view.Keys) == Cascade(g, {a}) * (arcs + view.Keys);
    }
  }

  lemma OthersSnoc(g: Graph, k: Keynodes, view: View, s: Addr, n: Addr, el: Element, t: Addr)
    requires Free(g, view) && Ready(g, k) && s in view && t in view && t != s && Chain(g, k, t, view[t])
    requires n !in g && n != EMPTY && ConnectorType(el.ty) && s !in k.All() && el.begin == s && el.end in g
    ensures Chain(g[n := el], k, t, view[t])
  {
    assert s in view[t] ==> s in ArcsOf(view);
    ChainAdd(g, k, t, view[t], n, el);
  }

  lemma PlacedSnoc(g: Graph, k: Keynodes, view: View, s: Addr, n: Addr, el: Element)
    requires Placed(g, k, view) && s in view && n !in g && n != EMPTY
    requires MembershipType(el.ty) && el.begin == s && el.end in g
    requires el.end !in Cascade(g, ArcsOf(view))
    ensures Placed(g[n := el], k, view[s := view[s] + [n]])
  {
    FreeSnoc(g, view, s, n, el);
    MembersSnoc(g, s, view[s], n, el);
    forall t <- view | t != s ensures HasMembers(g[n := el], t, view[t]) {
      MembersAdd(g, t, view[t], n, el);
    }
  }

  lemma WorldButSnoc(g: Graph, k: Keynodes, view: View, s: Addr, n: Addr, el: Element)
    requires WorldBut(g, k, view, s) && n !in g && n != EMPTY
    requires MembershipType(el.ty) && el.begin == s && el.end in g
    requires el.end !in Cascade(g, ArcsOf(view))
    ensures WorldBut(g[n := el], k, view[s := view[s] + [n]], s)
  {
    PlacedSnoc(g, k, view, s, n, el);
    forall t <- view | t != s ensures Chain(g[n := el], k, t, view[t]) {
      OthersSnoc(g, k, view, s, n, el, t);
    }
  }

  // No other set has the set's arcs.
  lemma ArcsApart(g: Graph, k: Keynodes, view: View, s: Addr)
    requires Placed(g, k, view) && s in view
    ensures forall t <- view, a <- view[s] :: t != s ==> a !in view[t]
    ensures s !in ArcsOf(view)
  {
    forall t <- view, a <- view[s] | t != s ensures a !in view[t] { ArcFacts(g, k, view, s, a); }
  }

  lemma FreshUnmarked(g: Graph, n: Addr, el: Element, role: Addr)
    requires Wf(g) && n !in g && n != EMPTY && n != el.end
    ensures Unmarked(g[n := el], role, [n])
  {
    CommonArcs();
    var g' := g[n := el];
    forall mark ensures !Marks(g', mark, role, n) {
      assert mark == n || mark !in g || g[mark].end in g || !IsConnector(g[mark].ty);
    }
  }

  // ---- Append ----

  // The addresses a call of AppendElement has been given: the membership arc, its rrel_last mark,
  // and the rrel_1 mark or the sequence link with its mark.
  datatype Fresh = Fresh(n: Addr, last: Addr, x: Addr, y: Addr)

  predicate FreshIn(f: Fresh, g: Graph) {
    && g.Keys !! {f.n, f.last, f.x} && EMPTY !in {f.n, f.last, f.x}
    && f.n != f.last && f.n != f.x && f.last != f.x
  }

  predicate AllFreshIn(f: Fresh, g: Graph) {
    FreshIn(f, g) && f.y !in g && f.y !in {EMPTY, f.n, f.last, f.x}
  }

  function WithTail(g: Graph, k: Keynodes, s: Addr, e: Addr, ty: ScType, f: Fresh): Graph {
    g[f.n := Arc(ty, s, e)][f.last := Arc(CONST_ACTUAL_TEMP_POS_ARC, k.rrelLast, f.n)]
  }

  // What AppendElement makes of a memory whose set has no tail ...
  function AppendedFirst(g: Graph, k: Keynodes, s: Addr, e: Addr, ty: ScType, f: Fresh): Graph {
    WithTail(g, k, s, e, ty, f)[f.x := Arc(ty, k.rrel1, f.n)]
  }

  // ... and of one whose tail was `tail`.
  function AppendedNext(g: Graph, k: Keynodes, s: Addr, tail: Addr, e: Addr, ty: ScType, f: Fresh): Graph {
    WithTail(g, k, s, e, ty, f)[f.x := Arc(CONST_COMMON_ARC, tail, f.n)][f.y := Arc(ty, k.basicSequence, f.x)]
  }

  // The element may be appended: no set's arc, and nothing that hangs on one.
  ghost predicate Appendable(g: Graph, view: View, e: Addr) {
    e in g && e !in Cascade(g, ArcsOf(view))
  }

  lemma TailWorld(g: Graph, k: Keynodes, view: View, s: Addr, e: Addr, ty: ScType, f: Fresh)
    requires WorldBut(g, k, view, s) && Appendable(g, view, e) && MembershipType(ty) && FreshIn(f, g)
    ensures WorldBut(WithTail(g, k, s, e, ty, f), k, view[s := view[s] + [f.n]], s)
  {
    var g1, view' := g[f.n := Arc(ty, s, e)], view[s := view[s] + [f.n]];
    WorldButSnoc(g, k, view, s, f.n, Arc(ty, s, e));
    ArcsApart(g1, k, view', s);
    WorldButAdd(g1, k, view', s, f.last, Arc(CONST_ACTUAL_TEMP_POS_ARC, k.rrelLast, f.n));
  }

  lemma AppendedFirstWorld(g: Graph, k: Keynodes, view: View, s: Addr, e: Addr, ty: ScType, f: Fresh)
    requires World(g, k, view) && s in view && view[s] == []
    requires Appendable(g, view, e) && MembershipType(ty) && FreshIn(f, g)
    ensures World(AppendedFirst(g, k, s, e, ty, f), k, view[s := view[s] + [f.n]])
  {
    var g2, view' := WithTail(g, k, s, e, ty, f), view[s := view[s] + [f.n]];
    assert view[s] + [f.n] == [f.n];
    TailWorld(g, k, view, s, e, ty, f);
    ArcsApart(g2, k, view', s);
    WorldButAdd(g2, k, view', s, f.x, Arc(ty, k.rrel1, f.n));
    AppendedFirstChain(g, k, s, e, ty, f);
  }

  lemma AppendedFirstChain(g: Graph, k: Keynodes, s: Addr, e: Addr, ty: ScType, f: Fresh)
    requires Ready(g, k) && HasMembers(g, s, []) && s in g && s !in k.All() && e in g
    requires MembershipType(ty) && FreshIn(f, g)
    ensures Chain(AppendedFirst(g, k, s, e, ty, f), k, s, [f.n])
  {
    var el, firstMark := Arc(ty, s, e), Arc(ty, k.rrel1, f.n);
    var lastMark := Arc(CONST_ACTUAL_TEMP_POS_ARC, k.rrelLast, f.n);
    var g1 := g[f.n := el];
    var g2 := g1[f.last := lastMark];
    var g3 := g2[f.x := firstMark];
    assert [] + [f.n] == [f.n];
    MembersSnoc(g, s, [], f.n, el);
    MembersAdd(g1, s, [f.n], f.last, lastMark);
    MembersAdd(g2, s, [f.n], f.x, firstMark);
    SequenceFirst(g, k, s, f.n, el);
    CommonArcs();
    forall a, b | a in [f.n] || b in [f.n] ensures Follows(g3, k, a, b) <==> Adjacent([f.n], a, b) {
      FollowsAdd(g1, k, a, b, f.last, lastMark);
      FollowsAdd(g2, k, a, b, f.x, firstMark);
    }
    FreshUnmarked(g, f.n, el, k.rrelLast);
    FreshUnmarked(g, f.n, el, k.rrel1);
    Mark(g1, k.rrelLast, [f.n], f.n, f.last, CONST_ACTUAL_TEMP_POS_ARC);
    MarkAdd(g2, k.rrelLast, [f.n], f.n, f.x, firstMark);
    UnmarkedAdd(g1, k.rrel1, [f.n], f.last, lastMark);
    Mark(g2, k.rrel1, [f.n], f.n, f.x, ty);
  }

  lemma UnmarkedAdd(g: Graph, role: Addr, arcs: seq<Addr>, n: Addr, el: Element)
    requires Unmarked(g, role, arcs) && n !in g && (el.begin == role ==> el.end !in arcs)
    ensures Unmarked(g[n := el], role, arcs)
  {
    var g' := g[n := el];
    forall m, x | x in arcs ensures !Marks(g', m, role, x) {
      assert m == n || !Marks(g, m, role, x);
    }
  }

  // ---- Erasing the tail mark ----

  lemma FreeDel(g: Graph, view: View, x: Addr)
    requires Free(g, view) && Cascade(g, {x}) !! ArcsOf(view)
    ensures Free(Del(g, {x}), view)
  {
    var g' := Del(g, {x});
    forall a <- ArcsOf(view)
      ensures a in g' && Cascade(g', {a}) * (ArcsOf(view) + view.Keys) == {a} && g'[a].end !in Cascade(g', {a})
    {
      CascadeOfDel(g, {x}, {a});
      CascadeClosed(g', {a});
    }
  }

  // Nothing of the view hangs on an arc but the arc itself.
  lemma SparedByArc(g: Graph, view: View, a: Addr, x: Addr)
    requires Free(g, view) && a in ArcsOf(view) && x in ArcsOf(view) + view.Keys && x != a
    ensures x !in Cascade(g, {a})
  {
    assert x !in Cascade(g, {a}) * (ArcsOf(view) + view.Keys);
  }

  lemma MarkIsNoArc(g: Graph, k: Keynodes, view: View, s: Addr, a: Addr, r: Addr, role: Addr)
    requires Placed(g, k, view) && s in view && a in view[s] && role in k.All() && Marks(g, r, role, a)
    ensures r in Cascade(g, {a}) && r != a && r !in k.All() && r !in ArcsOf(view) + view.Keys
  {
    ArcFacts(g, k, view, s, a);
    CommonArcs();
    CascadeClosed(g, {a});
    assert Hangs(g[r], Cascade(g, {a}));
    assert g[a].begin == s && s != role;
    if r in ArcsOf(view) + view.Keys {
      SparedByArc(g, view, a, r);
    }
  }

  // A mark on an arc takes no arc, set or keynode with it.
  lemma MarkCascade(g: Graph, k: Keynodes, view: View, s: Addr, a: Addr, r: Addr, role: Addr)
    requires Placed(g, k, view) && s in view && a in view[s] && role in k.All() && Marks(g, r, role, a)
    ensures Cascade(g, {r}) !! ArcsOf(view) + view.Keys + k.All()
    ensures Cascade(g, {r}) <= Cascade(g, {a})
  {
    ArcFacts(g, k, view, s, a);
    MarkIsNoArc(g, k, view, s, a, r, role);
    CascadeMonotone(g, {r}, {a});
    KeysNotInCascade(g, k, r);
    ArcOutlivesMark(g, view, s, a, r);
    forall x <- ArcsOf(view) + view.Keys ensures x !in Cascade(g, {r}) {
      if x != a {
        SparedByArc(g, view, a, x);
      }
    }
  }

  lemma ArcOutlivesMark(g: Graph, view: View, s: Addr, a: Addr, r: Addr)
    requires Free(g, view) && s in view && a in ArcsOf(view) && IsMember(g, s, a) && a != r
    requires Cascade(g, {r}) <= Cascade(g, {a})
    ensures a !in Cascade(g, {r})
  {
    if a in Cascade(g, {r}) {
      CascadeHangs(g, {r}, a);
      if s != a {
        SparedByArc(g, view, a, s);
      }
    }
  }

  // The mark of a set's tail: erasing it touches no chain.
  ghost predicate TailMark(g: Graph, k: Keynodes, view: View, s: Addr, r: Addr) {
    s in view && view[s] != [] && Marks(g, r, k.rrelLast, view[s][|view[s]| - 1])
  }

  lemma TailMarkCascade(g: Graph, k: Keynodes, view: View, s: Addr, r: Addr)
    requires Placed(g, k, view) && TailMark(g, k, view, s, r)
    ensures Cascade(g, {r}) !! ArcsOf(view) + view.Keys + k.All()
    ensures Cascade(g, {r}) <= Cascade(g, ArcsOf(view))
  {
    var tail := view[s][|view[s]| - 1];
    MarkCascade(g, k, view, s, tail, r, k.rrelLast);
    CascadeClosed(g, ArcsOf(view));
    assert tail in ArcsOf(view);
    CascadeMonotone(g, {tail}, ArcsOf(view));
  }

  lemma TailMarkOutside(g: Graph, k: Keynodes, view: View, s: Addr, r: Addr, t: Addr)
    requires Placed(g, k, view) && TailMark(g, k, view, s, r) && t in view
    ensures Outside(g, k, t, view[t], r)
  {
    TailMarkCascade(g, k, view, s, r);
    ArcsAreNoKeynodes(g, k, view, t);
  }

  lemma ArcsAreNoKeynodes(g: Graph, k: Keynodes, view: View, t: Addr)
    requires Placed(g, k, view) && t in view
    ensures k.All() !! Members(view[t]) && Members(view[t]) <= ArcsOf(view)
    ensures Members(view[t]) <= g.Keys
  {
    forall b <- view[t] ensures b !in k.All() && b in ArcsOf(view) { ArcFacts(g, k, view, t, b); }
  }

  lemma PlacedWithoutTailMark(g: Graph, k: Keynodes, view: View, s: Addr, r: Addr)
    requires Placed(g, k, view) && TailMark(g, k, view, s, r)
    ensures Placed(Del(g, {r}), k, view)
  {
    TailMarkCascade(g, k, view, s, r);
    ReadyDel(g, k, r);
    FreeDel(g, view, r);
    forall t <- view ensures HasMembers(Del(g, {r}), t, view[t]) {
      TailMarkOutside(g, k, view, s, r, t);
      MembersOutlive(g, k, t, view[t], r);
    }
  }

  lemma OtherWithoutTailMark(g: Graph, k: Keynodes, view: View, s: Addr, r: Addr, t: Addr)
    requires Placed(g, k, view) && TailMark(g, k, view, s, r) && t in view && t != s && Chain(g, k, t, view[t])
    ensures Chain(Del(g, {r}), k, t, view[t])
  {
    TailMarkOutside(g, k, view, s, r, t);
    ArcsApart(g, k, view, s);
    assert view[s][|view[s]| - 1] in view[s];
    ChainOutlives(g, k, t, view[t], r);
  }

  lemma WithoutTailMark(g: Graph, k: Keynodes, view: View, s: Addr, r: Addr)
    requires World(g, k, view) && TailMark(g, k, view, s, r)
    ensures WorldBut(Del(g, {r}), k, view, s)
  {
    PlacedWithoutTailMark(g, k, view, s, r);
    forall t <- view | t != s ensures Chain(Del(g, {r}), k, t, view[t]) {
      OtherWithoutTailMark(g, k, view, s, r, t);
    }
  }

  lemma WithoutTailMarkChain(g: Graph, k: Keynodes, view: View, s: Addr, r: Addr)
    requires World(g, k, view) && TailMark(g, k, view, s, r)
    ensures Sequenced(Del(g, {r}), k, view[s])
    ensures OnlyMark(Del(g, {r}), k.rrel1, view[s], view[s][0])
    ensures Unmarked(Del(g, {r}), k.rrelLast, view[s])
  {
    TailMarkOutside(g, k, view, s, r, s);
    SequenceOutlives(g, k, s, view[s], r);
    MarkOutlives(g, k, k.rrel1, view[s], view[s][0], r);
    TailUnmarked(g, k, view[s], view[s][|view[s]| - 1], r);
  }

  lemma AppendableWithoutTailMark(g: Graph, k: Keynodes, view: View, s: Addr, r: Addr, e: Addr)
    requires World(g, k, view) && TailMark(g, k, view, s, r) && Appendable(g, view, e)
    ensures Appendable(Del(g, {r}), view, e)
  {
    TailMarkCascade(g, k, view, s, r);
    CascadeOfDel(g, {r}, ArcsOf(view));
  }

  lemma TailUnmarked(g: Graph, k: Keynodes, arcs: seq<Addr>, tail: Addr, r: Addr)
    requires OnlyMark(g, k.rrelLast, arcs, tail) && tail in arcs && Marks(g, r, k.rrelLast, tail)
    ensures Unmarked(Del(g, {r}), k.rrelLast, arcs)
  {
    CascadeClosed(g, {r});
    var g' := Del(g, {r});
    forall m, x | x in arcs ensures !Marks(g', m, k.rrelLast, x) {
      assert Marks(g, m, k.rrelLast, x) ==> m == r;
    }
  }

  lemma WorldFrom(g: Graph, k: Keynodes, view: View, s: Addr)
    requires WorldBut(g, k, view, s) && Chain(g, k, s, view[s])
    ensures World(g, k, view)
  {
  }

  // In a memory without the tail's mark.
  lemma AppendedBehind(g: Graph, k: Keynodes, view: View, s: Addr, e: Addr, ty: ScType, f: Fresh)
    requires WorldBut(g, k, view, s) && view[s] != [] && Sequenced(g, k, view[s])
    requires OnlyMark(g, k.rrel1, view[s], view[s][0]) && Unmarked(g, k.rrelLast, view[s])
    requires Appendable(g, view, e) && MembershipType(ty) && AllFreshIn(f, g)
    ensures World(
      AppendedNext(g, k, s, view[s][|view[s]| - 1], e, ty, f), k, view[s := view[s] + [f.n]])
  {
    var g' := AppendedNext(g, k, s, view[s][|view[s]| - 1], e, ty, f);
    AppendedNextBut(g, k, view, s, e, ty, f);
    AppendedBehindChain(g, k, view, s, e, ty, f);
    WorldFrom(g', k, view[s := view[s] + [f.n]], s);
  }

  lemma AppendedBehindChain(g: Graph, k: Keynodes, view: View, s: Addr, e: Addr, ty: ScType, f: Fresh)
    requires Placed(g, k, view) && s in view && view[s] != [] && Sequenced(g, k, view[s])
    requires OnlyMark(g, k.rrel1, view[s], view[s][0]) && Unmarked(g, k.rrelLast, view[s])
    requires Appendable(g, view, e) && MembershipType(ty) && AllFreshIn(f, g)
    ensures Chain(AppendedNext(g, k, s, view[s][|view[s]| - 1], e, ty, f), k, s, view[s] + [f.n])
  {
    ArcsApart(g, k, view, s);
    ArcsAreNoKeynodes(g, k, view, s);
    assert s in view[s] ==> s in ArcsOf(view);
    AppendedNextChain(g, k, s, view[s], e, ty, f);
  }

  lemma AppendedNextWorld(
      g: Graph, k: Keynodes, view: View, s: Addr, r: Addr, e: Addr, ty: ScType, f: Fresh)
    requires World(g, k, view) && TailMark(g, k, view, s, r)
    requires Appendable(g, view, e) && MembershipType(ty) && AllFreshIn(f, Del(g, {r}))
    ensures World(
      AppendedNext(Del(g, {r}), k, s, view[s][|view[s]| - 1], e, ty, f), k, view[s := view[s] + [f.n]])
  {
    WithoutTailMark(g, k, view, s, r);
    WithoutTailMarkChain(g, k, view, s, r);
    AppendableWithoutTailMark(g, k, view, s, r, e);
    AppendedBehind(Del(g, {r}), k, view, s, e, ty, f);
  }

  lemma AppendedNextBut(g: Graph, k: Keynodes, view: View, s: Addr, e: Addr, ty: ScType, f: Fresh)
    requires WorldBut(g, k, view, s) && view[s] != []
    requires Appendable(g, view, e) && MembershipType(ty) && AllFreshIn(f, g)
    ensures WorldBut(
      AppendedNext(g, k, s, view[s][|view[s]| - 1], e, ty, f), k, view[s := view[s] + [f.n]], s)
  {
    TailWorld(g, k, view, s, e, ty, f);
    LinkWorld(WithTail(g, k, s, e, ty, f), k, view[s := view[s] + [f.n]], s, view[s][|view[s]| - 1], f.n, f.x, f.y, ty);
  }

  // Linking two arcs of `s` concerns no other set.
  lemma LinkWorld(g: Graph, k: Keynodes, view: View, s: Addr, a: Addr, b: Addr, c: Addr, q: Addr, ty: ScType)
    requires WorldBut(g, k, view, s) && a in view[s] && b in view[s] && MembershipType(ty)
    requires c !in g && q !in g && c != q && EMPTY !in {c, q}
    ensures WorldBut(g[c := Arc(CONST_COMMON_ARC, a, b)][q := Arc(ty, k.basicSequence, c)], k, view, s)
  {
    ArcsApart(g, k, view, s);
    assert IsMember(g, s, a) && IsMember(g, s, b);
    assert a in ArcsOf(view);
    WorldButAdd(g, k, view, s, c, Arc(CONST_COMMON_ARC, a, b));
    WorldButAdd(g[c := Arc(CONST_COMMON_ARC, a, b)], k, view, s, q, Arc(ty, k.basicSequence, c));
  }

  lemma AppendedNextChain(g: Graph, k: Keynodes, s: Addr, arcs: seq<Addr>, e: Addr, ty: ScType, f: Fresh)
    requires Ready(g, k) && HasMembers(g, s, arcs) && s in g && s !in k.All() && s !in arcs && e in g
    requires arcs != [] && Sequenced(g, k, arcs) && OnlyMark(g, k.rrel1, arcs, arcs[0])
    requires Unmarked(g, k.rrelLast, arcs)
    requires MembershipType(ty) && AllFreshIn(f, g)
    ensures Chain(AppendedNext(g, k, s, arcs[|arcs| - 1], e, ty, f), k, s, arcs + [f.n])
  {
    var el, lastMark := Arc(ty, s, e), Arc(CONST_ACTUAL_TEMP_POS_ARC, k.rrelLast, f.n);
    var link, linkMark := Arc(CONST_COMMON_ARC, arcs[|arcs| - 1], f.n), Arc(ty, k.basicSequence, f.x);
    var g1, arcs' := g[f.n := el], arcs + [f.n];
    var g2 := g1[f.last := lastMark];
    var g3 := g2[f.x := link];
    MembersSnoc(g, s, arcs, f.n, el);
    MembersAdd(g1, s, arcs', f.last, lastMark);
    MembersAdd(g2, s, arcs', f.x, link);
    MembersAdd(g3, s, arcs', f.y, linkMark);
    CommonArcs();
    SequenceFirst(g, k, s, f.n, el);
    SequencedAdd(g, k, arcs, f.n, el);
    SequencedAdd(g1, k, arcs, f.last, lastMark);
    SequencedAdd(g1, k, [f.n], f.last, lastMark);
    SequenceLinked(g2, k, arcs, f.n, f.x, f.y, ty);
    AppendedNextMarks(g, k, s, arcs, e, ty, f);
  }

  lemma AppendedNextMarks(g: Graph, k: Keynodes, s: Addr, arcs: seq<Addr>, e: Addr, ty: ScType, f: Fresh)
    requires Ready(g, k) && s !in k.All() && e in g && arcs != [] && k.All() !! Members(arcs)
    requires OnlyMark(g, k.rrel1, arcs, arcs[0]) && Unmarked(g, k.rrelLast, arcs) && AllFreshIn(f, g)
    ensures OnlyMark(AppendedNext(g, k, s, arcs[|arcs| - 1], e, ty, f), k.rrel1, arcs + [f.n], arcs[0])
    ensures OnlyMark(AppendedNext(g, k, s, arcs[|arcs| - 1], e, ty, f), k.rrelLast, arcs + [f.n], f.n)
  {
    var el, lastMark := Arc(ty, s, e), Arc(CONST_ACTUAL_TEMP_POS_ARC, k.rrelLast, f.n);
    var link, linkMark := Arc(CONST_COMMON_ARC, arcs[|arcs| - 1], f.n), Arc(ty, k.basicSequence, f.x);
    var g1, arcs' := g[f.n := el], arcs + [f.n];
    var g2 := g1[f.last := lastMark];
    var g3 := g2[f.x := link];
    FreshUnmarked(g, f.n, el, k.rrel1);
    FreshUnmarked(g, f.n, el, k.rrelLast);
    MarkAdd(g, k.rrel1, arcs, arcs[0], f.n, el);
    assert OnlyMark(g1, k.rrel1, arcs', arcs[0]);
    MarkAdd(g1, k.rrel1, arcs', arcs[0], f.last, lastMark);
    MarkAdd(g2, k.rrel1, arcs', arcs[0], f.x, link);
    MarkAdd(g3, k.rrel1, arcs', arcs[0], f.y, linkMark);
    UnmarkedAdd(g, k.rrelLast, arcs, f.n, el);
    assert Unmarked(g1, k.rrelLast, arcs');
    Mark(g1, k.rrelLast, arcs', f.n, f.last, CONST_ACTUAL_TEMP_POS_ARC);
    assert arcs[|arcs| - 1] in Members(arcs);
    MarkAdd(g2, k.rrelLast, arcs', f.n, f.x, link);
    MarkAdd(g3, k.rrelLast, arcs', f.n, f.y, linkMark);
  }

  // ---- Remove ----

  lemma ArcsOfWithout(g: Graph, k: Keynodes, view: View, s: Addr, i: nat)
    requires Placed(g, k, view) && s in view && i < |view[s]|
    ensures ArcsOf(view[s := Without(view[s], i)]) == ArcsOf(view) - {view[s][i]}
  {
    var x, view' := view[s][i], view[s := Without(view[s], i)];
    MembersWithout(view[s], i);
    ArcFacts(g, k, view, s, x);
    forall a ensures a in ArcsOf(view') <==> a in ArcsOf(view) - {x} {
      if a in ArcsOf(view) - {x} {
        var t :| t in view && a in view[t];
        assert a in view'[t];
      }
      if a in ArcsOf(view') {
        var t :| t in view' && a in view'[t];
        assert a in view[t];
      }
    }
  }

  // What hangs on a membership arc is no other arc, no set and no keynode.
  lemma ArcLoose(g: Graph, k: Keynodes, view: View, s: Addr, x: Addr)
    requires Placed(g, k, view) && s in view && x in view[s]
    ensures Loose(g, k, s, view[s], x)
    ensures Cascade(g, {x}) * (ArcsOf(view) + view.Keys + k.All()) == {x}
    ensures forall t <- view :: t != s ==> Outside(g, k, t, view[t], x)
  {
    ArcFacts(g, k, view, s, x);
    KeysNotInCascade(g, k, x);
    CascadeClosed(g, {x});
    assert s !in Cascade(g, {x}) * (ArcsOf(view) + view.Keys);
    forall t <- view ensures Members(view[t]) <= ArcsOf(view) && (t != s ==> Outside(g, k, t, view[t], x)) {
      ArcsAreNoKeynodes(g, k, view, t);
    }
  }

  lemma PlacedWithout(g: Graph, k: Keynodes, view: View, s: Addr, i: nat)
    requires Placed(g, k, view) && s in view && i < |view[s]| && Sequenced(g, k, view[s])
    ensures Placed(Del(g, {view[s][i]}), k, view[s := Without(view[s], i)])
  {
    var x, view' := view[s][i], view[s := Without(view[s], i)];
    ArcFacts(g, k, view, s, x);
    ArcLoose(g, k, view, s, x);
    ReadyDel(g, k, x);
    ArcsOfWithout(g, k, view, s, i);
    FreeWithout(g, view, view', x);
    TakenOut(g, k, s, view[s], i);
    forall t <- view | t != s ensures HasMembers(Del(g, {x}), t, view[t]) { MembersOutlive(g, k, t, view[t], x); }
  }

  lemma WithoutArc(g: Graph, k: Keynodes, view: View, s: Addr, i: nat)
    requires World(g, k, view) && s in view && i < |view[s]|
    ensures WorldBut(Del(g, {view[s][i]}), k, view[s := Without(view[s], i)], s)
  {
    var x := view[s][i];
    PlacedWithout(g, k, view, s, i);
    ArcFacts(g, k, view, s, x);
    ArcLoose(g, k, view, s, x);
    forall t <- view | t != s ensures Chain(Del(g, {x}), k, t, view[t]) { ChainOutlives(g, k, t, view[t], x); }
  }

  lemma FreeWithout(g: Graph, view: View, view': View, x: Addr)
    requires Free(g, view) && view'.Keys == view.Keys && ArcsOf(view') == ArcsOf(view) - {x}
    requires Cascade(g, {x}) * ArcsOf(view) == {x}
    ensures Free(Del(g, {x}), view')
  {
    var g' := Del(g, {x});
    forall a <- ArcsOf(view')
      ensures a in g' && Cascade(g', {a}) * (ArcsOf(view') + view'.Keys) == {a} && g'[a].end !in Cascade(g', {a})
    {
      CascadeOfDel(g, {x}, {a});
      CascadeClosed(g', {a});
    }
  }

  // The chain between erasing its member i and the repair.
  ghost predicate Broken(g: Graph, k: Keynodes, arcs: seq<Addr>, i: nat)
    requires i < |arcs|
  {
    var rest := Without(arcs, i);
    && (forall a, b :: a in rest || b in rest ==>
          (Follows(g, k, a, b) <==> Adjacent(arcs, a, b) && a != arcs[i] && b != arcs[i]))
    && (if i == 0 then Unmarked(g, k.rrel1, rest) else OnlyMark(g, k.rrel1, rest, arcs[0]))
    && (if i == |arcs| - 1 then Unmarked(g, k.rrelLast, rest) else OnlyMark(g, k.rrelLast, rest, arcs[|arcs| - 1]))
  }

  ghost predicate Gap(g: Graph, k: Keynodes, view: View, s: Addr, arcs: seq<Addr>, i: nat) {
    i < |arcs| && Distinct(arcs) && WorldBut(g, k, view, s) && view[s] == Without(arcs, i) && Broken(g, k, arcs, i)
  }

  lemma BrokenChain(g: Graph, k: Keynodes, s: Addr, arcs: seq<Addr>, i: nat)
    requires Ready(g, k) && s !in k.All() && Chain(g, k, s, arcs)
    requires i < |arcs| && Loose(g, k, s, arcs, arcs[i])
    ensures Broken(Del(g, {arcs[i]}), k, arcs, i)
  {
    TakenOut(g, k, s, arcs, i);
    MarkAfterRemoval(g, k, s, arcs, i, k.rrel1, 0);
    MarkAfterRemoval(g, k, s, arcs, i, k.rrelLast, |arcs| - 1);
  }

  lemma RemovedGap(g: Graph, k: Keynodes, view: View, s: Addr, i: nat)
    requires World(g, k, view) && s in view && i < |view[s]|
    ensures Gap(Del(g, {view[s][i]}), k, view[s := Without(view[s], i)], s, view[s], i)
  {
    WithoutArc(g, k, view, s, i);
    ArcLoose(g, k, view, s, view[s][i]);
    BrokenChain(g, k, s, view[s], i);
  }

  lemma MarkAfterRemoval(g: Graph, k: Keynodes, s: Addr, arcs: seq<Addr>, i: nat, role: Addr, at: nat)
    requires Ready(g, k) && role in k.All() && HasMembers(g, s, arcs) && s !in k.All()
    requires i < |arcs| && at < |arcs| && OnlyMark(g, role, arcs, arcs[at]) && Loose(g, k, s, arcs, arcs[i])
    ensures if i == at then Unmarked(Del(g, {arcs[i]}), role, Without(arcs, i))
            else OnlyMark(Del(g, {arcs[i]}), role, Without(arcs, i), arcs[at])
  {
    var rest, x := Without(arcs, i), arcs[i];
    MembersWithout(arcs, i);
    if i == at {
      MarksTakenOut(g, role, arcs, i);
    } else {
      assert IsMember(g, s, x);
      assert OnlyMark(g, role, rest, arcs[at]);
      assert Members(rest) <= Members(arcs) - {x};
      MarkOutlives(g, k, role, rest, arcs[at], x);
    }
  }

  // Both neighbours exist: they are linked.
  lemma CloseMiddle(
      g: Graph, k: Keynodes, view: View, s: Addr, arcs: seq<Addr>, i: nat, c: Addr, q: Addr, ty: ScType)
    requires Gap(g, k, view, s, arcs, i) && 0 < i < |arcs| - 1 && MembershipType(ty)
    requires c !in g && q !in g && c != q && EMPTY !in {c, q}
    ensures World(
      g[c := Arc(CONST_COMMON_ARC, arcs[i - 1], arcs[i + 1])][q := Arc(ty, k.basicSequence, c)], k, view)
  {
    var rest := view[s];
    var g' := g[c := Arc(CONST_COMMON_ARC, arcs[i - 1], arcs[i + 1])][q := Arc(ty, k.basicSequence, c)];
    MembersWithout(arcs, i);
    EndsWithout(arcs, i);
    LinkWorld(g, k, view, s, arcs[i - 1], arcs[i + 1], c, q, ty);
    ArcsAreNoKeynodes(g, k, view, s);
    CloseMiddleChain(g, k, arcs, i, c, q, ty);
    assert rest[0] == arcs[0] && rest[|rest| - 1] == arcs[|arcs| - 1];
    Completed(g', k, view, s);
  }

  lemma Completed(g: Graph, k: Keynodes, view: View, s: Addr)
    requires WorldBut(g, k, view, s) && Sequenced(g, k, view[s]) && view[s] != []
    requires OnlyMark(g, k.rrel1, view[s], view[s][0])
    requires OnlyMark(g, k.rrelLast, view[s], view[s][|view[s]| - 1])
    ensures World(g, k, view)
  {
  }

  lemma CloseMiddleChain(g: Graph, k: Keynodes, arcs: seq<Addr>, i: nat, c: Addr, q: Addr, ty: ScType)
    requires 0 < i < |arcs| - 1 && MembershipType(ty) && Distinct(arcs) && Ready(g, k) && Broken(g, k, arcs, i)
    requires k.All() !! Members(Without(arcs, i)) && Members(Without(arcs, i)) <= g.Keys
    requires c !in g && q !in g && c != q
    ensures
      var g' := g[c := Arc(CONST_COMMON_ARC, arcs[i - 1], arcs[i + 1])][q := Arc(ty, k.basicSequence, c)];
      && Sequenced(g', k, Without(arcs, i))
      && OnlyMark(g', k.rrel1, Without(arcs, i), arcs[0])
      && OnlyMark(g', k.rrelLast, Without(arcs, i), arcs[|arcs| - 1])
  {
    var prev, next, rest := arcs[i - 1], arcs[i + 1], Without(arcs, i);
    var g1 := g[c := Arc(CONST_COMMON_ARC, prev, next)];
    var g2 := g1[q := Arc(ty, k.basicSequence, c)];
    MembersWithout(arcs, i);
    forall a, b | a in rest || b in rest ensures Follows(g2, k, a, b) <==> Adjacent(rest, a, b) {
      FollowsLinked(g, k, prev, next, c, q, ty, a, b);
      AdjacentWithout(arcs, i, a, b);
    }
    assert prev in Members(rest);
    MarkAdd(g, k.rrel1, rest, arcs[0], c, Arc(CONST_COMMON_ARC, prev, next));
    MarkAdd(g1, k.rrel1, rest, arcs[0], q, Arc(ty, k.basicSequence, c));
    MarkAdd(g, k.rrelLast, rest, arcs[|arcs| - 1], c, Arc(CONST_COMMON_ARC, prev, next));
    MarkAdd(g1, k.rrelLast, rest, arcs[|arcs| - 1], q, Arc(ty, k.basicSequence, c));
  }

  lemma EndsWithout(arcs: seq<Addr>, i: nat)
    requires i < |arcs| && |arcs| > 1
    ensures Without(arcs, i)[0] == arcs[if i == 0 then 1 else 0]
    ensures Without(arcs, i)[|arcs| - 2] == arcs[if i == |arcs| - 1 then |arcs| - 2 else |arcs| - 1]
  {
  }

  // An end is gone: the mark that went with it is set on the new end.
  lemma CloseEnd(
      g: Graph, k: Keynodes, view: View, s: Addr, arcs: seq<Addr>, i: nat, m: Addr, ty: ScType)
    requires Gap(g, k, view, s, arcs, i) && |arcs| > 1 && (i == 0 || i == |arcs| - 1) && MembershipType(ty)
    requires m !in g && m != EMPTY
    ensures World(g[m := EndMark(k, arcs, i, ty)], k, view)
  {
    var el := EndMark(k, arcs, i, ty);
    MembersWithout(arcs, i);
    EndsWithout(arcs, i);
    assert el.end in view[s];
    ArcFacts(g, k, view, s, el.end);
    WorldButAdd(g, k, view, s, m, el);
    CloseEndChain(g, k, arcs, i, m, ty);
    CloseEndMarks(g, k, arcs, i, m, ty);
    Completed(g[m := el], k, view, s);
  }

  function EndMark(k: Keynodes, arcs: seq<Addr>, i: nat, ty: ScType): Element
    requires |arcs| > 1 && (i == 0 || i == |arcs| - 1)
  {
    if i == 0 then Arc(ty, k.rrel1, arcs[1]) else Arc(ty, k.rrelLast, arcs[i - 1])
  }

  lemma CloseEndChain(g: Graph, k: Keynodes, arcs: seq<Addr>, i: nat, m: Addr, ty: ScType)
    requires |arcs| > 1 && (i == 0 || i == |arcs| - 1) && MembershipType(ty) && Distinct(arcs) && Ready(g, k)
    requires Broken(g, k, arcs, i) && m !in g && m != EMPTY
    requires k.All() !! Members(Without(arcs, i)) && Members(Without(arcs, i)) <= g.Keys
    ensures Sequenced(g[m := EndMark(k, arcs, i, ty)], k, Without(arcs, i))
  {
    var el, rest := EndMark(k, arcs, i, ty), Without(arcs, i);
    forall a, b | a in rest || b in rest ensures Follows(g[m := el], k, a, b) <==> Adjacent(rest, a, b) {
      assert a in rest ==> a in Members(rest);
      FollowsAdd(g, k, a, b, m, el);
      AdjacentWithout(arcs, i, a, b);
    }
  }

  lemma CloseEndMarks(g: Graph, k: Keynodes, arcs: seq<Addr>, i: nat, m: Addr, ty: ScType)
    requires |arcs| > 1 && (i == 0 || i == |arcs| - 1) && MembershipType(ty) && Distinct(arcs) && Ready(g, k)
    requires Broken(g, k, arcs, i) && m !in g && m != EMPTY
    ensures
      var g', rest := g[m := EndMark(k, arcs, i, ty)], Without(arcs, i);
      rest != [] && OnlyMark(g', k.rrel1, rest, rest[0]) && OnlyMark(g', k.rrelLast, rest, rest[|rest| - 1])
  {
    var el, rest := EndMark(k, arcs, i, ty), Without(arcs, i);
    MembersWithout(arcs, i);
    EndsWithout(arcs, i);
    if i == 0 {
      Mark(g, k.rrel1, rest, arcs[1], m, ty);
      MarkAdd(g, k.rrelLast, rest, arcs[|arcs| - 1], m, el);
    } else {
      Mark(g, k.rrelLast, rest, arcs[i - 1], m, ty);
      MarkAdd(g, k.rrel1, rest, arcs[0], m, el);
    }
  }

  lemma CloseEmpty(g: Graph, k: Keynodes, view: View, s: Addr, arcs: seq<Addr>)
    requires Gap(g, k, view, s, arcs, 0) && |arcs| == 1
    ensures World(g, k, view)
  {
    assert view[s] == [];
    assert Sequenced(g, k, []);
  }
}
