// sc-memory as a finite map from addresses to elements, and the cascade that an erasure starts.
module ScGraph {
  import opened ScTypes

  // A ScAddr by its hash; 0 is ScAddr::Empty. Addresses of erased elements may be handed out again.
  datatype Addr = Addr(hash: nat)
  const EMPTY: Addr := Addr(0)

  datatype Content = NoContent | Text(value: string)

  // `begin` and `end` are EMPTY for nodes and links.
  datatype Element = Element(ty: ScType, begin: Addr, end: Addr, content: Content)

  type Graph = map<Addr, Element>

  function Node(ty: ScType): Element { Element(ty, EMPTY, EMPTY, NoContent) }

  function Arc(ty: ScType, begin: Addr, end: Addr): Element { Element(ty, begin, end, NoContent) }

  // Both endpoints of a connector exist, and exactly the connectors have endpoints.
  ghost predicate Wf(g: Graph) {
    && EMPTY !in g
    && forall a <- g ::
         if IsConnector(g[a].ty) then g[a].begin in g && g[a].end in g && ConnectorType(g[a].ty)
         else g[a].begin == g[a].end == EMPTY
  }

  // The element is a connector with an endpoint in `doomed`.
  predicate Hangs(el: Element, doomed: set<Addr>) {
    el.begin != EMPTY && (el.begin in doomed || el.end in doomed)
  }

  ghost predicate Closed(g: Graph, doomed: set<Addr>) {
    forall x <- g :: Hangs(g[x], doomed) ==> x in doomed
  }

  // Everything an erasure of `roots` takes with it: connectors on the roots, connectors on those, ...
  ghost function Cascade(g: Graph, roots: set<Addr>): set<Addr>
    decreases g.Keys - roots
  {
    var next := set x <- g | x !in roots && Hangs(g[x], roots);
    if next == {} then roots else Cascade(g, roots + next)
  }

  ghost function Del(g: Graph, roots: set<Addr>): Graph {
    g - Cascade(g, roots)
  }

  lemma {:induction false} CascadeClosed(g: Graph, roots: set<Addr>)
    ensures roots <= Cascade(g, roots) <= roots + g.Keys
    ensures Closed(g, Cascade(g, roots))
    decreases g.Keys - roots
  {
    var next := set x <- g | x !in roots && Hangs(g[x], roots);
    if next == {} {
      forall x <- g | Hangs(g[x], roots) ensures x in roots {
        assert x in roots || x in next;
      }
    } else {
      CascadeClosed(g, roots + next);
    }
  }

  // The cascade is the least closed set over its roots ...
  lemma {:induction false} CascadeLeast(g: Graph, roots: set<Addr>, bound: set<Addr>)
    requires roots <= bound && Closed(g, bound)
    ensures Cascade(g, roots) <= bound
    decreases g.Keys - roots
  {
    var next := set x <- g | x !in roots && Hangs(g[x], roots);
    if next != {} {
      assert next <= bound by {
        forall x <- next ensures x in bound { assert Hangs(g[x], bound); }
      }
      CascadeLeast(g, roots + next, bound);
    }
  }

  // ... so each of its elements is a root or hangs on another.
  lemma {:induction false} CascadeHangs(g: Graph, roots: set<Addr>, y: Addr)
    requires y in Cascade(g, roots) && y !in roots
    ensures y in g && Hangs(g[y], Cascade(g, roots))
  {
    CascadeClosed(g, roots);
    var all := Cascade(g, roots);
    if !Hangs(g[y], all) {
      forall x <- g | Hangs(g[x], all - {y}) ensures x in all - {y} { assert Hangs(g[x], all); }
      CascadeLeast(g, roots, all - {y});
    }
  }

  lemma CascadeMonotone(g: Graph, small: set<Addr>, big: set<Addr>)
    requires small <= Cascade(g, big)
    ensures Cascade(g, small) <= Cascade(g, big)
  {
    CascadeClosed(g, big);
    CascadeLeast(g, small, Cascade(g, big));
  }

  lemma DelWf(g: Graph, roots: set<Addr>)
    requires Wf(g)
    ensures Wf(Del(g, roots))
  {
    CascadeClosed(g, roots);
    forall a <- Del(g, roots) | IsConnector(g[a].ty)
      ensures g[a].begin in Del(g, roots) && g[a].end in Del(g, roots)
    {
      assert Hangs(g[a], Cascade(g, roots)) ==> a in Cascade(g, roots);
    }
  }

  // Erasing one thing after another is erasing them together.
  lemma DelDel(g: Graph, first: set<Addr>, second: set<Addr>)
    requires Wf(g)
    ensures Del(Del(g, first), second) == Del(g, first + second)
  {
    var g1 := Del(g, first);
    var one, two, both := Cascade(g, first), Cascade(g1, second), Cascade(g, first + second);
    CascadeClosed(g, first);
    CascadeClosed(g1, second);
    CascadeClosed(g, first + second);
    CascadeMonotone(g, first, first + second);
    assert Closed(g1, both) by {
      forall x <- g1 | Hangs(g1[x], both) ensures x in both { assert Hangs(g[x], both); }
    }
    CascadeLeast(g1, second, both);
    assert Closed(g, one + two) by {
      forall x <- g | Hangs(g[x], one + two) ensures x in one + two {
        if Hangs(g[x], one) {
        } else {
          assert Hangs(g[x], two);
          if x !in one { assert x in g1 && g1[x] == g[x]; }
        }
      }
    }
    CascadeLeast(g, first + second, one + two);
    assert both == one + two;
    assert Del(g1, second) == Del(g, first + second);
  }

  // Nothing that was there has changed or gone.
  ghost predicate Preserved(g: Graph, after: Graph) {
    forall a <- g :: a in after && after[a] == g[a]
  }

  // `g` holds `base` unchanged and elements with the addresses `added` besides.
  ghost predicate Extends(base: Graph, g: Graph, added: set<Addr>) {
    g.Keys == base.Keys + added && base.Keys !! added && forall a <- base :: g[a] == base[a]
  }

  // Older elements never hang on younger ones, so erasing all the additions restores the base.
  lemma DelAdded(base: Graph, g: Graph, added: set<Addr>)
    requires Wf(base) && Wf(g) && Extends(base, g, added)
    ensures Cascade(g, added) == added
    ensures Del(g, added) == base
  {
    assert forall x <- base :: Hangs(base[x], added) ==> IsConnector(base[x].ty);
    assert Closed(g, added);
    CascadeClosed(g, added);
    CascadeLeast(g, added, added);
  }

  // Cascades within the base do not change when elements are added, except by added elements.
  lemma CascadeOfBase(base: Graph, g: Graph, added: set<Addr>, roots: set<Addr>)
    requires Wf(base) && Wf(g) && Extends(base, g, added) && roots <= base.Keys
    ensures Cascade(base, roots) <= Cascade(g, roots) <= Cascade(base, roots) + added
  {
    CascadeClosed(base, roots);
    CascadeClosed(g, roots);
    var c := Cascade(g, roots);
    assert Closed(base, c) by {
      forall x <- base | Hangs(base[x], c) ensures x in c { assert Hangs(g[x], c); }
    }
    CascadeLeast(base, roots, c);
    var b := Cascade(base, roots) + added;
    assert Closed(g, b) by {
      forall x <- g | Hangs(g[x], b) ensures x in b {
        if x in base {
          assert IsConnector(base[x].ty);
          assert Hangs(base[x], Cascade(base, roots));
        }
      }
    }
    CascadeLeast(g, roots, b);
  }

  // The memory that contexts share. Iterators are read as arbitrary choices among the matching
  // connectors; an iterator whose loop erases what it finds starts over after each erasure.
  class ScMemory {
    var graph: Graph

    constructor ()
      ensures graph == map[] && Wf(graph)
    {
      graph := map[];
    }

    // Some address not in use; `sc_storage_allocate_new_element` prefers released ones.
    method Fresh() returns (a: Addr)
      ensures a != EMPTY && a !in graph
    {
      ghost var _ := SomeFresh(graph);
      a :| a != EMPTY && a !in graph;
    }

    ghost method TwoFresh() returns (a: Addr, b: Addr)
      ensures a !in graph && b !in graph && EMPTY !in {a, b} && a != b
    {
      a := SomeFresh(graph);
      b := SomeFresh(graph[a := Node(UNKNOWN)]);
    }

    method GenerateNode(ty: ScType) returns (a: Addr)
      requires Wf(graph) && !IsConnector(ty)
      modifies this
      ensures a != EMPTY && a !in old(graph)
      ensures graph == old(graph)[a := Node(ty | NODE)]
      ensures Wf(graph)
    {
      a := Fresh();
      NodeType(ty);
      graph := graph[a := Node(ty | NODE)];
    }

    method GenerateLink() returns (a: Addr)
      requires Wf(graph)
      modifies this
      ensures a != EMPTY && a !in old(graph)
      ensures graph == old(graph)[a := Node(CONST_NODE_LINK)]
      ensures Wf(graph)
    {
      a := Fresh();
      graph := graph[a := Node(CONST_NODE_LINK)];
    }

    method SetLinkContent(a: Addr, text: string)
      requires Wf(graph) && a in graph
      modifies this
      ensures graph == old(graph)[a := old(graph)[a].(content := Text(text))]
      ensures Wf(graph)
    {
      graph := graph[a := graph[a].(content := Text(text))];
    }

    // EMPTY, with the memory untouched, when an endpoint does not exist: the C++ wrapper turns
    // that result into ExceptionInvalidParams.
    method GenerateConnector(ty: ScType, begin: Addr, end: Addr) returns (a: Addr)
      requires Wf(graph) && ConnectorType(ty)
      modifies this
      ensures a != EMPTY <==> begin in old(graph) && end in old(graph)
      ensures a == EMPTY ==> graph == old(graph)
      ensures a != EMPTY ==> a !in old(graph) && graph == old(graph)[a := Arc(ty, begin, end)]
      ensures Wf(graph)
    {
      if begin == EMPTY || end == EMPTY || begin !in graph || end !in graph {
        return EMPTY;
      }
      a := Fresh();
      graph := graph[a := Arc(ty, begin, end)];
    }

    // `sc_storage_element_erase`: collect the element and, breadth first, every connector on it,
    // then free what was collected in that order.
    method EraseElement(addr: Addr) returns (ok: bool)
      requires Wf(graph)
      modifies this
      ensures ok <==> addr in old(graph)
      ensures graph == Del(old(graph), {addr})
      ensures Wf(graph)
    {
      DelWf(graph, {addr});
      if addr !in graph {
        NothingHangsOnAbsent(graph, addr);
        return false;
      }
      var order := CollectDoomed(addr);
      FreeAll(order);
      return true;
    }

    method CollectDoomed(addr: Addr) returns (order: seq<Addr>)
      requires Wf(graph) && addr in graph
      ensures Members(order) == Cascade(graph, {addr})
    {
      CascadeClosed(graph, {addr});
      var queue, cached := [addr], {};
      order := [];
      while queue != []
        invariant Collecting(graph, addr, order, queue, cached)
        decreases graph.Keys - cached, |queue|
      {
        var element := queue[0];
        var pushed := Uncached(element, cached);
        CollectingStep(graph, addr, order, queue, cached, pushed);
        order, queue, cached := order + [element], queue[1..] + pushed, cached + Members(pushed);
      }
      CascadeLeast(graph, {addr}, Members(order));
    }

    // The connectors on `element` that no earlier element has queued, in some order.
    method Uncached(element: Addr, cached: set<Addr>) returns (pushed: seq<Addr>)
      ensures Members(pushed) == set x <- graph | x !in cached && Hangs(graph[x], {element})
    {
      pushed := [];
      ghost var all := set x <- graph | x !in cached && Hangs(graph[x], {element});
      var left := set x <- graph | x !in cached && Hangs(graph[x], {element});
      while left != {}
        invariant Members(pushed) + left == all
        decreases left
      {
        var connector :| connector in left;
        left := left - {connector};
        pushed := pushed + [connector];
      }
    }

    method FreeAll(order: seq<Addr>)
      modifies this
      ensures graph == old(graph) - Members(order)
    {
      var next := 0;
      assert order[..next] == [];
      while next < |order|
        invariant 0 <= next <= |order|
        invariant graph == old(graph) - Members(order[..next])
      {
        graph := graph - {order[next]};
        assert order[..next + 1] == order[..next] + [order[next]];
        next := next + 1;
      }
      assert order[..next] == order;
    }
  }

  function Members(s: seq<Addr>): set<Addr> { set x <- s }

  lemma MembersConcat(s: seq<Addr>, t: seq<Addr>)
    ensures Members(s + t) == Members(s) + Members(t)
  {
  }

  // What the erasing loop keeps: all it has met is doomed, and whatever hangs on an element it has
  // already passed is queued or passed as well.
  ghost predicate Collecting(g: Graph, addr: Addr, order: seq<Addr>, queue: seq<Addr>, cached: set<Addr>) {
    && addr in Members(order) + Members(queue)
    && Members(order) + Members(queue) <= Cascade(g, {addr})
    && cached <= Members(order) + Members(queue)
    && cached <= g.Keys
    && forall x <- g :: Hangs(g[x], Members(order)) ==> x in cached
  }

  lemma CollectingStep(
      g: Graph, addr: Addr, order: seq<Addr>, queue: seq<Addr>, cached: set<Addr>, pushed: seq<Addr>)
    requires queue != [] && Collecting(g, addr, order, queue, cached)
    requires Members(pushed) == set x <- g | x !in cached && Hangs(g[x], {queue[0]})
    ensures Collecting(g, addr, order + [queue[0]], queue[1..] + pushed, cached + Members(pushed))
    ensures pushed == [] || g.Keys - cached - Members(pushed) < g.Keys - cached
  {
    MembersConcat(order, [queue[0]]);
    MembersConcat(queue[1..], pushed);
    MembersConcat([queue[0]], queue[1..]);
    assert [queue[0]] + queue[1..] == queue;
    CascadeClosed(g, {addr});
    assert Members([queue[0]]) == {queue[0]};
    forall x <- Members(pushed) ensures x in Cascade(g, {addr}) {
      assert Hangs(g[x], Cascade(g, {addr}));
    }
    assert pushed == [] || pushed[0] in Members(pushed);
  }

  lemma NothingHangsOnAbsent(g: Graph, a: Addr)
    requires Wf(g) && a !in g
    ensures Del(g, {a}) == g
  {
    assert forall x <- g :: Hangs(g[x], {a}) ==> IsConnector(g[x].ty);
    assert Closed(g, {a});
    CascadeClosed(g, {a});
    CascadeLeast(g, {a}, {a});
  }

  lemma SomeFresh(g: Graph) returns (a: Addr)
    ensures a != EMPTY && a !in g
  {
    var hash := 1;
    while Addr(hash) in g
      invariant hash != 0
      decreases set x <- g | hash <= x.hash
    {
      ghost var ahead := set x <- g | hash <= x.hash;
      hash := hash + 1;
      assert (set x <- g | hash <= x.hash) == ahead - {Addr(hash - 1)};
    }
    a := Addr(hash);
  }

  lemma NodeType(ty: ScType)
    requires !IsConnector(ty)
    ensures !IsConnector(ty | NODE)
  {
  }
}
