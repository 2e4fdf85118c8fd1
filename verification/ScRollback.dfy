// Undoing what was generated, element by element.
module ScRollback {
  import opened ScGraph

  // Erases in the order of creation; a connector may already have gone with one of its ends. No step
  // takes an element that was there before.
  method EraseInOrder(memory: ScMemory, order: seq<Addr>, ghost base: Graph)
    requires Wf(base) && Wf(memory.graph) && Extends(base, memory.graph, Members(order))
    modifies memory
    ensures memory.graph == base
  {
    ghost var start := memory.graph;
    DelAdded(base, start, Members(order));
    NothingDeleted(start);
    var i := 0;
    while i < |order|
      invariant 0 <= i <= |order|
      invariant memory.graph == Del(start, Members(order[..i])) && Wf(memory.graph)
      invariant Preserved(base, memory.graph)
    {
      RollbackStep(base, start, order, i);
      var _ := memory.EraseElement(order[i]);
      i := i + 1;
    }
    assert order[..i] == order;
  }

  lemma RollbackStep(base: Graph, start: Graph, order: seq<Addr>, i: nat)
    requires i < |order| && Wf(base) && Wf(start) && Extends(base, start, Members(order))
    ensures Del(Del(start, Members(order[..i])), {order[i]}) == Del(start, Members(order[..i + 1]))
    ensures Preserved(base, Del(start, Members(order[..i + 1])))
  {
    OneMoreMember(order, i);
    DelDel(start, Members(order[..i]), {order[i]});
    PartOfRollback(base, start, Members(order), Members(order[..i + 1]));
  }

  lemma OneMoreMember(order: seq<Addr>, i: nat)
    requires i < |order|
    ensures Members(order[..i + 1]) == Members(order[..i]) + {order[i]} && Members(order[..i + 1]) <= Members(order)
  {
    assert order[..i + 1] == order[..i] + [order[i]];
  }

  lemma NothingDeleted(g: Graph)
    ensures Del(g, {}) == g
  {
  }

  lemma PartOfRollback(base: Graph, g: Graph, added: set<Addr>, part: set<Addr>)
    requires Wf(base) && Wf(g) && Extends(base, g, added) && part <= added
    ensures Preserved(base, Del(g, part))
  {
    DelAdded(base, g, added);
    CascadeMonotone(g, part, added);
  }
}
