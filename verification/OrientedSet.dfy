// The oriented set of sc_oriented_set.cpp, over a shared memory.
module OrientedSet {
  import opened ScTypes
  import opened ScGraph
  import opened OrientedChain
  import opened OrientedWorld
  import opened OrientedSteps

  // `Next` hands out the members in chain order; position i is the i-th arc, and EMPTY past the end.
  ghost function At(arcs: seq<Addr>, i: nat): Addr {
    if i < |arcs| then arcs[i] else EMPTY
  }

  // What the iterator (a, common arc, type, positive arc, nrel_basic_sequence) finds, ...
  predicate SequencesOut(g: Graph, k: Keynodes, a: Addr, ty: ScType, link: Addr, mark: Addr) {
    && link in g && g[link].begin == a && HasSubtype(g[link].ty, CONST_COMMON_ARC)
    && g[link].end in g && HasSubtype(g[g[link].end].ty, ty)
    && mark in g && g[mark].begin == k.basicSequence && g[mark].end == link && HasSubtype(g[mark].ty, CONST_POS_ARC)
  }

  // ... and its mirror image.
  predicate SequencesIn(g: Graph, k: Keynodes, a: Addr, link: Addr, mark: Addr) {
    && link in g && g[link].end == a && HasSubtype(g[link].ty, CONST_COMMON_ARC)
    && mark in g && g[mark].begin == k.basicSequence && g[mark].end == link && HasSubtype(g[mark].ty, CONST_POS_ARC)
  }

  ghost function RolesOf(g: Graph, a: Addr): set<Addr> {
    set m <- g | g[m].end == a && HasSubtype(g[m].ty, CONST_POS_ARC) && g[m].begin in g
                 && HasSubtype(g[g[m].begin].ty, CONST_NODE) :: g[m].begin
  }

  class ScOrientedSet {
    const context: ScMemory
    const keys: Keynodes
    const setAddr: Addr
    var currentArc: Addr

    constructor (context: ScMemory, keys: Keynodes, setAddr: Addr, ghost arcs: seq<Addr>)
      requires Ready(context.graph, keys) && Chain(context.graph, keys, setAddr, arcs)
      ensures this.context == context && this.keys == keys && this.setAddr == setAddr
      ensures currentArc == if arcs != [] && HeadVisible(context.graph, keys, arcs[0]) then arcs[0] else EMPTY
    {
      this.context, this.keys, this.setAddr := context, keys, setAddr;
      new;
      Reset(arcs);
    }

    method Reset(ghost arcs: seq<Addr>)
      requires Ready(context.graph, keys) && Chain(context.graph, keys, setAddr, arcs)
      modifies this
      ensures currentArc ==
              if arcs != [] && HeadVisible(context.graph, keys, arcs[0]) then arcs[0] else EMPTY
    {
      currentArc := EMPTY;
      var arcsLeft := set a <- context.graph | IsMember(context.graph, setAddr, a);
      while arcsLeft != {}
        invariant forall a <- arcsLeft :: a in arcs
        invariant forall a <- arcs :: a in arcsLeft || !HeadVisible(context.graph, keys, a)
        invariant currentArc == EMPTY
        decreases arcsLeft
      {
        var arcAddr :| arcAddr in arcsLeft;
        arcsLeft := arcsLeft - {arcAddr};
        if HeadVisible(context.graph, keys, arcAddr) {
          VisibleIsHead(context.graph, keys, setAddr, arcs, arcAddr);
          currentArc := arcAddr;
          return;
        }
      }
    }

    method Next(ghost arcs: seq<Addr>, ghost i: nat) returns (element: Addr, roles: set<Addr>)
      requires Ready(context.graph, keys) && Chain(context.graph, keys, setAddr, arcs)
      requires currentArc == At(arcs, i)
      modifies this
      ensures currentArc == At(arcs, i + 1)
      ensures i >= |arcs| ==> element == EMPTY && roles == {}
      ensures i < |arcs| ==> element == Elements(context.graph, arcs)[i] && element != EMPTY
      ensures i < |arcs| ==> roles == RolesOf(context.graph, arcs[i])
      ensures i < |arcs| ==> (keys.rrel1 in roles <==> i == 0) && (keys.rrelLast in roles <==> i == |arcs| - 1)
    {
      MemberFacts(context.graph, setAddr, arcs);
      if currentArc == EMPTY {
        return EMPTY, {};
      }
      element := context.graph[currentArc].end;
      roles := set m <- context.graph |
        && context.graph[m].end == currentArc && HasSubtype(context.graph[m].ty, CONST_POS_ARC)
        && context.graph[m].begin in context.graph
        && HasSubtype(context.graph[context.graph[m].begin].ty, CONST_NODE) :: context.graph[m].begin;
      StepFacts(context.graph, keys, setAddr, arcs, i);
      EndRoles(context.graph, keys, setAddr, arcs, i);
      if link, mark :| link in context.graph && mark in context.graph
                        && SequencesOut(context.graph, keys, currentArc, CONST_POS_ARC, link, mark) {
        currentArc := context.graph[link].end;
      } else {
        currentArc := EMPTY;
      }
    }

    // The current arc with its element, on the way to the next.
    method Advance(ghost arcs: seq<Addr>, ghost i: nat) returns (arc: Addr, element: Addr)
      requires Ready(context.graph, keys) && Chain(context.graph, keys, setAddr, arcs)
      requires i < |arcs| && currentArc == arcs[i]
      modifies this
      ensures currentArc == At(arcs, i + 1)
      ensures arc == arcs[i] && element == Elements(context.graph, arcs)[i]
    {
      arc := currentArc;
      var roles;
      element, roles := Next(arcs, i);
    }

    // Every member from the head on, by its arc and its element.
    method ForEach(ghost arcs: seq<Addr>) returns (visited: seq<(Addr, Addr)>)
      requires Ready(context.graph, keys) && Chain(context.graph, keys, setAddr, arcs)
      ensures arcs != [] && HeadVisible(context.graph, keys, arcs[0]) ==>
                |visited| == |arcs|
                && forall i :: 0 <= i < |arcs| ==> visited[i] == (arcs[i], Elements(context.graph, arcs)[i])
      ensures arcs == [] || !HeadVisible(context.graph, keys, arcs[0]) ==> visited == []
    {
      var walker := new ScOrientedSet(context, keys, setAddr, arcs);
      visited := [];
      MemberFacts(context.graph, setAddr, arcs);
      if walker.currentArc == EMPTY {
        return;
      }
      visited := walker.VisitAll(arcs);
    }

    // The loop of a traversal from the head.
    method VisitAll(ghost arcs: seq<Addr>) returns (visited: seq<(Addr, Addr)>)
      requires Ready(context.graph, keys) && Chain(context.graph, keys, setAddr, arcs)
      requires arcs != [] && currentArc == arcs[0]
      modifies this
      ensures |visited| == |arcs|
      ensures forall i :: 0 <= i < |arcs| ==> visited[i] == (arcs[i], Elements(context.graph, arcs)[i])
    {
      MemberFacts(context.graph, setAddr, arcs);
      ghost var elements, i := Elements(context.graph, arcs), 0;
      visited := [];
      while currentArc != EMPTY
        invariant i <= |arcs| && |visited| == i && currentArc == At(arcs, i)
        invariant Yielded(visited, arcs, elements)
        decreases |arcs| - i
      {
        var arc, element := Advance(arcs, i);
        YieldedMore(visited, arcs, elements, arc, element);
        visited, i := visited + [(arc, element)], i + 1;
      }
    }

    method GetLast(ghost arcs: seq<Addr>) returns (element: Addr)
      requires Ready(context.graph, keys) && Chain(context.graph, keys, setAddr, arcs)
      ensures element == if arcs == [] then EMPTY else Elements(context.graph, arcs)[|arcs| - 1]
    {
      TailFacts(context.graph, keys, setAddr, arcs);
      if a, mark :| a in context.graph && mark in context.graph && IsMember(context.graph, setAddr, a)
                    && Marks(context.graph, mark, keys.rrelLast, a) {
        return context.graph[a].end;
      }
      return EMPTY;
    }

    // The tail's arc, EMPTY in an empty set; its mark is taken away.
    method EraseTailMark(ghost view: View) returns (previous: Addr, ghost mark: Addr)
      requires World(context.graph, keys, view) && setAddr in view
      modifies context
      ensures previous == if view[setAddr] == [] then EMPTY else view[setAddr][|view[setAddr]| - 1]
      ensures view[setAddr] != [] ==> TailMark(old(context.graph), keys, view, setAddr, mark)
      ensures context.graph == Untailed(old(context.graph), view[setAddr], mark)
    {
      previous, mark := EMPTY, EMPTY;
      TailFacts(context.graph, keys, setAddr, view[setAddr]);
      MemberFacts(context.graph, setAddr, view[setAddr]);
      if a, m :| a in context.graph && m in context.graph && IsMember(context.graph, setAddr, a)
                 && Marks(context.graph, m, keys.rrelLast, a) {
        previous, mark := a, m;
        var _ := context.EraseElement(m);
      }
    }

    // The new arc, its rrel_last mark, and either the rrel_1 mark or the link from the previous tail.
    method Grow(previous: Addr, element: Addr, ty: ScType) returns (arc: Addr, ghost f: Fresh)
      requires Wf(context.graph) && ConnectorType(ty) && setAddr in context.graph && keys.All() <= context.graph.Keys
      requires previous == EMPTY || previous in context.graph
      modifies context
      ensures Wf(context.graph)
      ensures arc != EMPTY <==> element in old(context.graph)
      ensures arc == EMPTY ==> context.graph == old(context.graph)
      ensures arc != EMPTY ==> arc == f.n && FreshIn(f, old(context.graph))
      ensures arc != EMPTY && previous == EMPTY ==>
                context.graph == AppendedFirst(old(context.graph), keys, setAddr, element, ty, f)
      ensures arc != EMPTY && previous != EMPTY ==>
                && AllFreshIn(f, old(context.graph))
                && context.graph == AppendedNext(old(context.graph), keys, setAddr, previous, element, ty, f)
    {
      f := Fresh(EMPTY, EMPTY, EMPTY, EMPTY);
      CommonArcs();
      arc := context.GenerateConnector(ty, setAddr, element);
      if arc == EMPTY {
        return;
      }
      var last := context.GenerateConnector(CONST_ACTUAL_TEMP_POS_ARC, keys.rrelLast, arc);
      if previous != EMPTY {
        var link := context.GenerateConnector(CONST_COMMON_ARC, previous, arc);
        var mark := context.GenerateConnector(ty, keys.basicSequence, link);
        f := Fresh(arc, last, link, mark);
      } else {
        var first := context.GenerateConnector(ty, keys.rrel1, arc);
        f := Fresh(arc, last, first, EMPTY);
      }
    }

    // EMPTY when the element does not exist: the C++ code leaves by an exception, after it has
    // already taken the tail's mark away.
    method AppendElement(element: Addr, ty: ScType, ghost view: View) returns (arc: Addr)
      requires World(context.graph, keys, view) && setAddr in view && ConnectorType(ty)
      requires element !in Cascade(context.graph, ArcsOf(view))
      modifies context
      ensures Wf(context.graph) && (arc != EMPTY <==> element in old(context.graph))
      ensures arc != EMPTY ==> Draws(old(context.graph), context.graph, keys, view, setAddr, element, ty, arc)
      ensures arc != EMPTY && MembershipType(ty) ==>
                Appended(old(context.graph), context.graph, keys, view, setAddr, element, ty, arc)
      ensures arc == EMPTY ==> LosesTailMark(old(context.graph), context.graph, keys, view, setAddr)
    {
      ghost var g := context.graph;
      var previous, mark := EraseTailMark(view);
      UntailedFacts(g, keys, view, setAddr, mark, element);
      ghost var f;
      arc, f := Grow(previous, element, ty);
      if arc != EMPTY {
        assert DrawsAs(g, context.graph, keys, view, setAddr, element, ty, mark, f);
        if MembershipType(ty) {
          DrawnIsAppended(g, context.graph, keys, view, setAddr, element, ty, mark, f);
        }
      }
    }

    method Append(element: Addr, ty: ScType, ghost view: View) returns (ok: bool, ghost arc: Addr)
      requires World(context.graph, keys, view) && setAddr in view && ConnectorType(ty)
      requires element !in Cascade(context.graph, ArcsOf(view))
      modifies context
      ensures ok <==> element in old(context.graph)
      ensures ok ==> Draws(old(context.graph), context.graph, keys, view, setAddr, element, ty, arc)
      ensures ok && MembershipType(ty) ==>
                Appended(old(context.graph), context.graph, keys, view, setAddr, element, ty, arc)
      ensures !ok ==> LosesTailMark(old(context.graph), context.graph, keys, view, setAddr)
    {
      var added := AppendElement(element, ty, view);
      arc := added;
      return added != EMPTY, arc;
    }

    // `role` also marks the new arc. The call fails by exception when the element or the role does
    // not exist; in the second case the element stays appended.
    method AppendWithRole(element: Addr, role: Addr, ty: ScType, ghost view: View) returns (ok: bool, ghost arc: Addr)
      requires World(context.graph, keys, view) && setAddr in view && ConnectorType(ty)
      requires element !in Cascade(context.graph, ArcsOf(view))
      requires role !in {keys.rrel1, keys.rrelLast} && role !in view
      modifies context
      ensures element !in old(context.graph) ==>
                !ok && LosesTailMark(old(context.graph), context.graph, keys, view, setAddr)
      ensures element in old(context.graph) && MembershipType(ty) ==>
                && Appended(old(context.graph), context.graph, keys, view, setAddr, element, ty, arc)
                && (ok <==> role in context.graph)
                && (ok ==> Connected(context.graph, role, arc, ty))
      ensures element in old(context.graph) ==>
                exists between: Graph ::
                  && Draws(old(context.graph), between, keys, view, setAddr, element, ty, arc)
                  && RoleGiven(between, context.graph, role, ty, arc, ok)
    {
      ghost var g := context.graph;
      var added := AppendElement(element, ty, view);
      arc := added;
      if added == EMPTY {
        return false, arc;
      }
      ghost var g1 := context.graph;
      ok := GiveRole(role, ty, added);
      if MembershipType(ty) {
        RoleIs(g, g1, context.graph, keys, view, setAddr, element, ty, arc, role, ok);
      }
    }

    method GiveRole(role: Addr, ty: ScType, arc: Addr) returns (ok: bool)
      requires Wf(context.graph) && ConnectorType(ty)
      modifies context
      ensures arc in old(context.graph) ==> RoleGiven(old(context.graph), context.graph, role, ty, arc, ok)
    {
      var mark := context.GenerateConnector(ty, role, arc);
      ok := mark != EMPTY;
    }

    method StripMarks(a: Addr, ghost g: Graph, ghost gone: set<Addr>) returns (ghost gone': set<Addr>)
      requires a != EMPTY && Shedding(g, context.graph, a, gone) && Wf(context.graph)
      modifies context
      ensures Shedding(g, context.graph, a, gone') && Wf(context.graph)
    {
      gone' := gone;
      CommonArcs();
      while true
        invariant Shedding(g, context.graph, a, gone') && Wf(context.graph)
        decreases context.graph.Keys
      {
        if m :| m in context.graph && context.graph[m].end == a && HasSubtype(context.graph[m].ty, CONST_POS_ARC)
                  && context.graph[m].begin in context.graph
                  && HasSubtype(context.graph[context.graph[m].begin].ty, CONST_NODE) {
          gone' := EraseShed(a, m, g, gone');
        } else {
          break;
        }
      }
      while true
        invariant Shedding(g, context.graph, a, gone') && Wf(context.graph)
        decreases context.graph.Keys
      {
        if m :| m in context.graph && Marks(context.graph, m, keys.rrel1, a) {
          gone' := EraseShed(a, m, g, gone');
        } else {
          break;
        }
      }
      while true
        invariant Shedding(g, context.graph, a, gone') && Wf(context.graph)
        decreases context.graph.Keys
      {
        if m :| m in context.graph && Marks(context.graph, m, keys.rrelLast, a) {
          gone' := EraseShed(a, m, g, gone');
        } else {
          break;
        }
      }
    }

    method StripLinks(a: Addr, ghost g: Graph, ghost gone: set<Addr>) returns (ghost gone': set<Addr>)
      requires a != EMPTY && Shedding(g, context.graph, a, gone) && Wf(context.graph)
      modifies context
      ensures Shedding(g, context.graph, a, gone') && Wf(context.graph)
    {
      gone' := gone;
      CommonArcs();
      while true
        invariant Shedding(g, context.graph, a, gone') && Wf(context.graph)
        decreases context.graph.Keys
      {
        if link, mark :| link in context.graph && mark in context.graph
                           && SequencesOut(context.graph, keys, a, UNKNOWN, link, mark) {
          gone' := EraseLink(a, link, mark, g, gone');
        } else {
          break;
        }
      }
      while true
        invariant Shedding(g, context.graph, a, gone') && Wf(context.graph)
        decreases context.graph.Keys
      {
        if link, mark :| link in context.graph && mark in context.graph
                           && SequencesIn(context.graph, keys, a, link, mark) {
          gone' := EraseLink(a, link, mark, g, gone');
        } else {
          break;
        }
      }
    }

    // The arc goes with all that hangs on it.
    method Detach(a: Addr)
      requires a != EMPTY && Wf(context.graph)
      modifies context
      ensures context.graph == Del(old(context.graph), {a}) && Wf(context.graph)
    {
      ghost var g, gone := context.graph, {};
      NothingShed(g, a);
      gone := StripMarks(a, g, gone);
      gone := StripLinks(a, g, gone);
      ShedAll(g, context.graph, a, gone);
      var _ := context.EraseElement(a);
    }

    // One connector on the arc `a` goes.
    method EraseShed(a: Addr, m: Addr, ghost g: Graph, ghost gone: set<Addr>) returns (ghost gone': set<Addr>)
      requires a != EMPTY && Shedding(g, context.graph, a, gone) && Wf(context.graph)
      requires m in context.graph && context.graph[m].begin != EMPTY
      requires context.graph[m].begin == a || context.graph[m].end == a
      modifies context
      ensures Shedding(g, context.graph, a, gone') && Wf(context.graph)
      ensures context.graph.Keys < old(context.graph.Keys)
    {
      OnArc(g, a, m);
      ShedMore(g, context.graph, a, gone, m);
      CascadeClosed(context.graph, {m});
      var _ := context.EraseElement(m);
      gone' := gone + {m};
    }

    // A sequence link and its mark; the mark has gone with the link.
    method EraseLink(a: Addr, link: Addr, mark: Addr, ghost g: Graph, ghost gone: set<Addr>)
      returns (ghost gone': set<Addr>)
      requires a != EMPTY && Shedding(g, context.graph, a, gone) && Wf(context.graph)
      requires link in context.graph && context.graph[link].begin != EMPTY
      requires context.graph[link].begin == a || context.graph[link].end == a
      requires Marks(context.graph, mark, keys.basicSequence, link) && IsConnector(context.graph[mark].ty)
      modifies context
      ensures Shedding(g, context.graph, a, gone') && Wf(context.graph)
      ensures context.graph.Keys < old(context.graph.Keys)
    {
      OnArc(g, a, link);
      gone' := EraseShed(a, link, g, gone);
      ShedMore(g, context.graph, a, gone', mark);
      CascadeClosed(context.graph, {mark});
      var _ := context.EraseElement(mark);
      gone' := gone' + {mark};
    }

    // The arcs before and after `a`, EMPTY at the ends.
    method Neighbours(a: Addr, ghost arcs: seq<Addr>, ghost i: nat) returns (prev: Addr, next: Addr)
      requires Ready(context.graph, keys) && Chain(context.graph, keys, setAddr, arcs)
      requires i < |arcs| && arcs[i] == a
      ensures prev == if i == 0 then EMPTY else arcs[i - 1]
      ensures next == At(arcs, i + 1)
    {
      prev, next := EMPTY, EMPTY;
      BackFacts(context.graph, keys, setAddr, arcs, i);
      OutFacts(context.graph, keys, setAddr, arcs, i);
      if link, mark :| link in context.graph && mark in context.graph
                        && SequencesIn(context.graph, keys, a, link, mark) {
        prev := context.graph[link].begin;
      }
      if link, mark :| link in context.graph && mark in context.graph
                        && SequencesOut(context.graph, keys, a, UNKNOWN, link, mark) {
        next := context.graph[link].end;
      }
    }

    // The arc between `prev` and `next` is gone: link them, or mark the new end.
    method Repair(prev: Addr, next: Addr, ty: ScType, ghost arcs: seq<Addr>, ghost i: nat)
      returns (ghost x: Addr, ghost y: Addr)
      requires Wf(context.graph) && keys.All() <= context.graph.Keys && MembershipType(ty)
      requires i < |arcs| && forall j :: 0 <= j < |arcs| && j != i ==> arcs[j] in context.graph
      requires prev == if i == 0 then EMPTY else arcs[i - 1]
      requires next == At(arcs, i + 1)
      modifies context
      ensures context.graph == Repaired(old(context.graph), keys, arcs, i, ty, x, y)
      ensures x != EMPTY && y != EMPTY && x != y && x !in old(context.graph) && y !in old(context.graph)
    {
      CommonArcs();
      x, y := context.TwoFresh();
      if prev != EMPTY && next != EMPTY {
        var common := context.GenerateConnector(CONST_COMMON_ARC, prev, next);
        var mark := context.GenerateConnector(ty, keys.basicSequence, common);
        x, y := common, mark;
      }
      if prev == EMPTY && next != EMPTY {
        var mark := context.GenerateConnector(ty, keys.rrel1, next);
        x, y := mark, if y == mark then x else y;
      }
      if next == EMPTY && prev != EMPTY {
        var mark := context.GenerateConnector(CONST_ACTUAL_TEMP_POS_ARC, keys.rrelLast, prev);
        x, y := mark, if y == mark then x else y;
      }
    }

    method Remove(element: Addr, ty: ScType, ghost view: View) returns (removed: bool, ghost i: nat)
      requires World(context.graph, keys, view) && setAddr in view && MembershipType(ty)
      modifies context
      ensures removed <==>
              exists a <- view[setAddr] :: a in old(context.graph) && old(context.graph)[a].end == element
                                           && HasSubtype(old(context.graph)[a].ty, ty)
      ensures removed ==> Removed(old(context.graph), context.graph, keys, view, setAddr, element, ty, i)
      ensures removed ==> Mends(old(context.graph), context.graph, keys, view[setAddr], ty, i)
      ensures !removed ==> context.graph == old(context.graph)
    {
      i := 0;
      ghost var g, arcs := context.graph, view[setAddr];
      MemberFacts(g, setAddr, arcs);
      MaskTransitive();
      removed := false;
      if a :| a in context.graph && context.graph[a].begin == setAddr && context.graph[a].end == element
              && HasSubtype(context.graph[a].ty, ty) {
        assert IsMember(g, setAddr, a);
        i :| 0 <= i < |arcs| && arcs[i] == a;
        var prev, next := Neighbours(a, arcs, i);
        Detach(a);
        WithoutArcFacts(g, keys, view, setAddr, i);
        ghost var x, y := Repair(prev, next, ty, arcs, i);
        RepairedIs(g, keys, view, setAddr, i, ty, x, y);
        assert MendsAs(g, context.graph, keys, arcs, ty, i, x, y);
        removed := true;
      }
    }
  }

  // The first arcs and elements of a traversal.
  ghost predicate Yielded(visited: seq<(Addr, Addr)>, arcs: seq<Addr>, elements: seq<Addr>) {
    && |visited| <= |arcs| == |elements|
    && forall i :: 0 <= i < |visited| ==> visited[i] == (arcs[i], elements[i])
  }

  lemma YieldedMore(visited: seq<(Addr, Addr)>, arcs: seq<Addr>, elements: seq<Addr>, arc: Addr, element: Addr)
    requires Yielded(visited, arcs, elements) && |visited| < |arcs|
    requires arc == arcs[|visited|] && element == elements[|visited|]
    ensures Yielded(visited + [(arc, element)], arcs, elements)
  {
  }

  // The whole of memory after a call of AppendElement: what hung on the tail's mark has gone with it,
  // and the new arc has come with its marks.
  ghost predicate Draws(g: Graph, g': Graph, k: Keynodes, view: View, s: Addr, e: Addr, ty: ScType, arc: Addr)
    requires s in view
  {
    exists mark, f: Fresh :: DrawsAs(g, g', k, view, s, e, ty, mark, f) && f.n == arc
  }

  ghost predicate DrawsAs(
      g: Graph, g': Graph, k: Keynodes, view: View, s: Addr, e: Addr, ty: ScType, mark: Addr, f: Fresh)
    requires s in view
  {
    if view[s] == [] then FreshIn(f, g) && g' == AppendedFirst(g, k, s, e, ty, f)
    else
      && TailMark(g, k, view, s, mark) && AllFreshIn(f, Del(g, {mark}))
      && g' == AppendedNext(Del(g, {mark}), k, s, view[s][|view[s]| - 1], e, ty, f)
  }

  lemma DrawnIsAppended(
      g: Graph, g': Graph, k: Keynodes, view: View, s: Addr, e: Addr, ty: ScType, mark: Addr, f: Fresh)
    requires World(g, k, view) && s in view && Appendable(g, view, e) && MembershipType(ty)
    requires DrawsAs(g, g', k, view, s, e, ty, mark, f)
    ensures Appended(g, g', k, view, s, e, ty, f.n)
  {
    if view[s] == [] {
      AppendedFirstIs(g, k, view, s, e, ty, f);
    } else {
      AppendedNextIs(g, k, view, s, mark, e, ty, f);
    }
  }

  ghost predicate RoleGiven(g: Graph, g': Graph, role: Addr, ty: ScType, arc: Addr, ok: bool) {
    && (ok <==> role in g)
    && if ok then exists mark :: mark !in g && mark != EMPTY && g' == g[mark := Arc(ty, role, arc)] else g' == g
  }

  // The whole of memory after a removal: what hung on the arc has gone with it, and the gap is closed.
  ghost predicate Mends(g: Graph, g': Graph, k: Keynodes, arcs: seq<Addr>, ty: ScType, i: nat) {
    exists x, y :: MendsAs(g, g', k, arcs, ty, i, x, y)
  }

  ghost predicate MendsAs(
      g: Graph, g': Graph, k: Keynodes, arcs: seq<Addr>, ty: ScType, i: nat, x: Addr, y: Addr)
  {
    && i < |arcs| && x !in Del(g, {arcs[i]}) && y !in Del(g, {arcs[i]}) && x != y
    && g' == Repaired(Del(g, {arcs[i]}), k, arcs, i, ty, x, y)
  }

  // What an Append that fails leaves behind.
  ghost predicate LosesTailMark(g: Graph, g': Graph, k: Keynodes, view: View, s: Addr)
    requires s in view
  {
    exists mark :: g' == Untailed(g, view[s], mark) && (view[s] != [] ==> TailMark(g, k, view, s, mark))
  }

  // The only marked member is the tail.
  lemma TailFacts(g: Graph, k: Keynodes, s: Addr, arcs: seq<Addr>)
    requires Wf(g) && Chain(g, k, s, arcs)
    ensures forall a, mark :: IsMember(g, s, a) && Marks(g, mark, k.rrelLast, a) ==>
              arcs != [] && a == arcs[|arcs| - 1]
    ensures arcs != [] ==> var tail := arcs[|arcs| - 1]; exists mark :: Marks(g, mark, k.rrelLast, tail)
  {
    MemberFacts(g, s, arcs);
  }

  lemma VisibleIsHead(g: Graph, k: Keynodes, s: Addr, arcs: seq<Addr>, a: Addr)
    requires Chain(g, k, s, arcs) && a in arcs && HeadVisible(g, k, a)
    ensures a == arcs[0]
  {
    PermIsPos();
    var m :| m in g && g[m].begin == k.rrel1 && g[m].end == a && HasSubtype(g[m].ty, CONST_PERM_POS_ARC);
    assert Marks(g, m, k.rrel1, a);
  }

  lemma PermIsPos()
    ensures forall t: ScType :: HasSubtype(t, CONST_PERM_POS_ARC) ==> HasSubtype(t, CONST_POS_ARC)
  {
  }

  lemma MemberFacts(g: Graph, s: Addr, arcs: seq<Addr>)
    requires Wf(g) && HasMembers(g, s, arcs)
    ensures forall a <- arcs :: a in g && a != EMPTY && g[a].end in g && g[a].end != EMPTY
    ensures forall a <- arcs :: g[a].begin == s && HasSubtype(g[a].ty, CONST_POS_ARC)
  {
    CommonArcs();
    assert forall a <- arcs :: IsMember(g, s, a);
  }

  // From the i-th arc the sequence leads to the next arc and nowhere else.
  lemma StepFacts(g: Graph, k: Keynodes, s: Addr, arcs: seq<Addr>, i: nat)
    requires Ready(g, k) && Chain(g, k, s, arcs) && i < |arcs|
    ensures forall link, mark :: SequencesOut(g, k, arcs[i], CONST_POS_ARC, link, mark) ==>
              i + 1 < |arcs| && g[link].end == arcs[i + 1]
    ensures i + 1 < |arcs| ==> exists link, mark :: SequencesOut(g, k, arcs[i], CONST_POS_ARC, link, mark)
  {
    MemberFacts(g, s, arcs);
    forall link, mark | SequencesOut(g, k, arcs[i], CONST_POS_ARC, link, mark)
      ensures i + 1 < |arcs| && g[link].end == arcs[i + 1]
    {
      assert Sequences(g, k, arcs[i], g[link].end, link, mark);
      assert Follows(g, k, arcs[i], g[link].end);
    }
    if i + 1 < |arcs| {
      assert Follows(g, k, arcs[i], arcs[i + 1]);
      var link, mark :| Sequences(g, k, arcs[i], arcs[i + 1], link, mark);
      assert SequencesOut(g, k, arcs[i], CONST_POS_ARC, link, mark);
    }
  }

  lemma EndRoles(g: Graph, k: Keynodes, s: Addr, arcs: seq<Addr>, i: nat)
    requires Ready(g, k) && Chain(g, k, s, arcs) && i < |arcs|
    ensures k.rrel1 in RolesOf(g, arcs[i]) <==> i == 0
    ensures k.rrelLast in RolesOf(g, arcs[i]) <==> i == |arcs| - 1
  {
    EndRole(g, k, arcs, i, k.rrel1, 0);
    EndRole(g, k, arcs, i, k.rrelLast, |arcs| - 1);
  }

  lemma EndRole(g: Graph, k: Keynodes, arcs: seq<Addr>, i: nat, role: Addr, at: nat)
    requires Ready(g, k) && role in k.All() && i < |arcs| && at < |arcs| && Distinct(arcs)
    requires OnlyMark(g, role, arcs, arcs[at])
    ensures role in RolesOf(g, arcs[i]) <==> i == at
  {
    if i == at {
      var m :| Marks(g, m, role, arcs[at]);
      assert g[m].begin in RolesOf(g, arcs[i]);
    }
    if role in RolesOf(g, arcs[i]) {
      var m :| m in g && g[m].end == arcs[i] && HasSubtype(g[m].ty, CONST_POS_ARC) && g[m].begin == role;
      assert Marks(g, m, role, arcs[i]);
    }
  }

  lemma MaskTransitive()
    ensures forall t: ScType, ty: ScType ::
              HasSubtype(t, ty) && HasSubtype(ty, CONST_POS_ARC) ==> HasSubtype(t, CONST_POS_ARC)
  {
  }

  lemma NothingShed(g: Graph, a: Addr)
    requires Wf(g)
    ensures Shedding(g, g, a, {})
  {
    assert Closed(g, {});
    CascadeLeast(g, {}, {});
  }

  lemma RoleIs(
      g: Graph, g1: Graph, g': Graph, k: Keynodes, view: View, s: Addr, e: Addr, ty: ScType, arc: Addr, role: Addr,
      ok: bool)
    requires s in view && Appended(g, g1, k, view, s, e, ty, arc) && RoleGiven(g1, g', role, ty, arc, ok)
    requires e !in Cascade(g, ArcsOf(view)) && role !in {k.rrel1, k.rrelLast} && role !in view && MembershipType(ty)
    ensures Appended(g, g', k, view, s, e, ty, arc) && (ok <==> role in g') && (ok ==> Connected(g', role, arc, ty))
  {
    if ok {
      var mark :| mark !in g1 && mark != EMPTY && g' == g1[mark := Arc(ty, role, arc)];
      MarkIs(g, g1, k, view, s, e, ty, arc, mark, role);
    }
  }

  lemma MarkIs(
      g: Graph, g1: Graph, k: Keynodes, view: View, s: Addr, e: Addr, ty: ScType, arc: Addr, mark: Addr, role: Addr)
    requires s in view && Appended(g, g1, k, view, s, e, ty, arc)
    requires e !in Cascade(g, ArcsOf(view)) && role in g1 && role !in {k.rrel1, k.rrelLast} && role !in view
    requires mark != EMPTY && mark !in g1 && MembershipType(ty)
    ensures Appended(g, g1[mark := Arc(ty, role, arc)], k, view, s, e, ty, arc)
    ensures Connected(g1[mark := Arc(ty, role, arc)], role, arc, ty)
  {
    MarkKeepsWorld(g, g1, k, view, s, e, ty, arc, mark, role);
    MarkKeepsRest(g, g1, k, ArcsOf(view), view[s] + [arc], ty, arc, mark, role);
  }

  lemma MarkKeepsWorld(
      g: Graph, g1: Graph, k: Keynodes, view: View, s: Addr, e: Addr, ty: ScType, arc: Addr, mark: Addr, role: Addr)
    requires s in view && World(g1, k, view[s := view[s] + [arc]]) && arc in g1 && g1[arc] == Arc(ty, s, e)
    requires e !in Cascade(g, ArcsOf(view)) && role in g1 && role !in {k.rrel1, k.rrelLast} && role !in view
    requires mark != EMPTY && mark !in g1 && MembershipType(ty)
    ensures World(g1[mark := Arc(ty, role, arc)], k, view[s := view[s] + [arc]])
  {
    var view' := view[s := view[s] + [arc]];
    RoleUnrelated(g, g1, k, view, view', s, e, ty, arc, role);
    WorldAdd(g1, k, view', mark, Arc(ty, role, arc));
  }

  lemma MarkKeepsRest(
      g: Graph, g1: Graph, k: Keynodes, old_: set<Addr>, arcs: seq<Addr>, ty: ScType, arc: Addr, mark: Addr, role: Addr)
    requires Kept(g, g1, old_) && arcs != [] && mark !in g1 && role != k.rrel1
    ensures
      var g' := g1[mark := Arc(ty, role, arc)];
      && Kept(g, g', old_) && Connected(g', role, arc, ty)
      && (Traversable(g', k, arcs) <==> Traversable(g1, k, arcs))
  {
    var el := Arc(ty, role, arc);
    assert mark in g1[mark := el];
    MaskTransitive();
    ConnectedAdd(g1, k.rrel1, arcs[0], CONST_PERM_POS_ARC, mark, el);
  }

  lemma OutFacts(g: Graph, k: Keynodes, s: Addr, arcs: seq<Addr>, i: nat)
    requires Ready(g, k) && Chain(g, k, s, arcs) && i < |arcs|
    ensures forall link, mark :: SequencesOut(g, k, arcs[i], UNKNOWN, link, mark) ==>
              i + 1 < |arcs| && g[link].end == arcs[i + 1]
    ensures i + 1 < |arcs| ==> exists link, mark :: SequencesOut(g, k, arcs[i], UNKNOWN, link, mark)
  {
    StepFacts(g, k, s, arcs, i);
    AnyType();
    if i + 1 < |arcs| {
      var link, mark :| SequencesOut(g, k, arcs[i], CONST_POS_ARC, link, mark);
      assert SequencesOut(g, k, arcs[i], UNKNOWN, link, mark);
    }
    forall link, mark | SequencesOut(g, k, arcs[i], UNKNOWN, link, mark)
      ensures i + 1 < |arcs| && g[link].end == arcs[i + 1]
    {
      assert Sequences(g, k, arcs[i], g[link].end, link, mark);
      assert Follows(g, k, arcs[i], g[link].end);
    }
  }

  lemma BackFacts(g: Graph, k: Keynodes, s: Addr, arcs: seq<Addr>, i: nat)
    requires Ready(g, k) && Chain(g, k, s, arcs) && i < |arcs|
    ensures forall link, mark :: SequencesIn(g, k, arcs[i], link, mark) ==> i > 0 && g[link].begin == arcs[i - 1]
    ensures i > 0 ==> exists link, mark :: SequencesIn(g, k, arcs[i], link, mark)
  {
    forall link, mark | SequencesIn(g, k, arcs[i], link, mark) ensures i > 0 && g[link].begin == arcs[i - 1] {
      assert Sequences(g, k, g[link].begin, arcs[i], link, mark);
      assert Follows(g, k, g[link].begin, arcs[i]);
    }
    if i > 0 {
      assert arcs[i] == arcs[i - 1 + 1];
      assert Follows(g, k, arcs[i - 1], arcs[i]);
      var link, mark :| Sequences(g, k, arcs[i - 1], arcs[i], link, mark);
      assert SequencesIn(g, k, arcs[i], link, mark);
    }
  }

  lemma AnyType()
    ensures forall t: ScType :: HasSubtype(t, UNKNOWN)
  {
  }

  lemma WithoutArcFacts(g: Graph, k: Keynodes, view: View, s: Addr, i: nat)
    requires Placed(g, k, view) && s in view && i < |view[s]|
    ensures k.All() <= Del(g, {view[s][i]}).Keys
    ensures forall j :: 0 <= j < |view[s]| && j != i ==> view[s][j] in Del(g, {view[s][i]})
  {
    var arcs := view[s];
    ArcLoose(g, k, view, s, arcs[i]);
    ArcFacts(g, k, view, s, arcs[i]);
    assert forall y <- k.All() :: y !in Cascade(g, {arcs[i]}) * (ArcsOf(view) + view.Keys + k.All());
    forall j | 0 <= j < |arcs| && j != i ensures arcs[j] in Del(g, {arcs[i]}) {
      ArcFacts(g, k, view, s, arcs[j]);
      assert arcs[j] !in Cascade(g, {arcs[i]}) * (ArcsOf(view) + view.Keys + k.All());
    }
  }

  lemma RoleUnrelated(
      g: Graph, g1: Graph, k: Keynodes, view: View, view': View, s: Addr, e: Addr, ty: ScType, arc: Addr, role: Addr)
    requires s in view && view' == view[s := view[s] + [arc]]
    requires Placed(g1, k, view') && arc in g1 && g1[arc] == Arc(ty, s, e)
    requires e !in Cascade(g, ArcsOf(view)) && role !in {k.rrel1, k.rrelLast} && role !in view
    ensures forall t <- view' :: Unrelated(g1, k, t, view'[t], Arc(ty, role, arc))
  {
    CascadeClosed(g, ArcsOf(view));
    ArcFacts(g1, k, view', s, arc);
    CascadeClosed(g1, {arc});
    forall t <- view' ensures e !in view'[t] {
      assert forall x <- view'[t] :: x == arc || x in view[t];
      assert forall x <- view[t] :: x in ArcsOf(view);
    }
  }
}
