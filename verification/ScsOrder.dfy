// When the order of its maps matters to the SCs writer.
module ScsOrder {
  import opened Wrappers
  import opened ScsDocument
  import opened ScsMeaning
  import opened ScsWriter

  // ---- Without contours ----

  ghost predicate Flat(doc: Document, elements: seq<Scg>, before: set<Id>) {
    && before <= doc.Keys
    && forall e <- elements :: e.id in doc && e.children == [] && doc[e.id].tag != Contour && e.id !in before
  }

  // What is written without waiting for anything.
  ghost function PlainOf(doc: Document, elements: seq<Scg>): set<Id> {
    set e <- elements | e.id in doc && doc[e.id].tag != Bus && !IsConnector(doc[e.id]) :: e.id
  }

  // The least set over the elements already written, and the plain ones, that has each connector of
  // which it has both endpoints.
  ghost function Fixpoint(doc: Document, elements: seq<Scg>, before: set<Id>): set<Id> {
    Grow(doc, ConnectorsOf(doc, elements) * doc.Keys, before + PlainOf(doc, elements))
  }

  lemma FlatConnectors(doc: Document, elements: seq<Scg>)
    ensures ConnectorsOf(doc, elements) * doc.Keys == ConnectorsOf(doc, elements)
  {
  }

  // The state of the first loop within the fixpoint `bound` of the whole list.
  ghost predicate Within(doc: Document, elements: seq<Scg>, before: set<Id>, first: set<Id>, bound: set<Id>) {
    && first <= doc.Keys
    && before + PlainOf(doc, elements) <= first <= bound
    && first <= before + PlainOf(doc, elements) + ConnectorsOf(doc, elements)
    && forall x <- first - before :: Convertible(doc[x])
  }

  lemma {:induction false} FlatFirstPhase(doc: Document, elements: seq<Scg>, before: set<Id>, bound: set<Id>)
    requires Flat(doc, elements, before) && ValidTree(doc, elements)
    requires before + PlainOf(doc, elements) <= bound
    requires forall c <- ConnectorsOf(doc, elements) :: c in doc && (Ready(doc, c, bound) ==> c in bound)
    ensures FirstPhase(doc, elements, before).None? ==>
              exists e <- elements :: doc[e.id].tag != Bus && !Convertible(doc[e.id])
    ensures FirstPhase(doc, elements, before).Some? ==>
              Within(doc, elements, before, FirstPhase(doc, elements, before).value, bound)
    decreases |elements|
  {
    if elements != [] {
      var n := |elements| - 1;
      var e := elements[n];
      assert elements[..n + 1] == elements;
      ValidPart(doc, elements, n);
      SplitLast(doc, elements, n);
      FlatFirstPhase(doc, elements[..n], before, bound);
      assert e in elements && doc[e.id].tag != Contour;
      if FirstPhase(doc, elements[..n], before).None? {
        var d :| d in elements[..n] && doc[d.id].tag != Bus && !Convertible(doc[d.id]);
        assert d in elements;
      } else {
        var sofar := FirstPhase(doc, elements[..n], before).value;
        assert FirstPhase(doc, elements, before) == Visit(doc, e, sofar);
        assert Visit(doc, e, sofar).None? ==> doc[e.id].tag != Bus && !Convertible(doc[e.id]);
      }
    }
  }

  lemma SplitLast(doc: Document, elements: seq<Scg>, n: nat)
    requires n + 1 == |elements| && elements[n].id in doc
    ensures ConnectorsOf(doc, elements) ==
            ConnectorsOf(doc, elements[..n]) + if IsConnector(doc[elements[n].id]) then {elements[n].id} else {}
    ensures PlainOf(doc, elements) == PlainOf(doc, elements[..n]) +
            if doc[elements[n].id].tag == Bus || IsConnector(doc[elements[n].id]) then {} else {elements[n].id}
  {
    var e := elements[n];
    assert forall d :: d in elements <==> d in elements[..n] || d == e;
  }

  // Nodes and connectors need a type that sc.s has, links content of a known kind.
  ghost predicate Expressible(info: Info) {
    && (info.tag in {Pair, Arc} ==> info.scsType != "")
    && (info.tag == Node && info.content == NoContent ==> info.scsType != "")
    && (info.tag == Node ==> info.content != Unsupported)
  }

  lemma ConvertibleIsExpressible(info: Info)
    ensures Convertible(info) <==> Expressible(info)
  {
  }

  // Without contours `Write` succeeds exactly when every element can be converted and every connector
  // is in the fixpoint, and then it has written the fixpoint.
  lemma FlatWrite(doc: Document, elements: seq<Scg>, before: set<Id>)
    requires Flat(doc, elements, before) && ValidTree(doc, elements)
    ensures WriteSpec(doc, elements, before) ==
            if (forall e <- elements :: e.id in doc && Expressible(doc[e.id]))
               && ConnectorsOf(doc, elements) <= Fixpoint(doc, elements, before)
            then Some(Fixpoint(doc, elements, before)) else None
  {
    forall e <- elements ensures e.id in doc && (Convertible(doc[e.id]) <==> Expressible(doc[e.id])) {
      ConvertibleIsExpressible(doc[e.id]);
    }
    var all, fix := ConnectorsOf(doc, elements), Fixpoint(doc, elements, before);
    FlatConnectors(doc, elements);
    GrowSaturated(doc, all, before + PlainOf(doc, elements));
    FlatFirstPhase(doc, elements, before, fix);
    if FirstPhase(doc, elements, before).Some? {
      var first := FirstPhase(doc, elements, before).value;
      SecondLoopReaches(doc, all, before + PlainOf(doc, elements), first);
      assert all - first <= Grow(doc, all - first, first) <==> all <= fix;
      EveryElementConvertible(doc, elements, before, first, fix);
    }
  }

  lemma EveryElementConvertible(doc: Document, elements: seq<Scg>, before: set<Id>, first: set<Id>, fix: set<Id>)
    requires Flat(doc, elements, before) && Within(doc, elements, before, first, fix)
    requires ConnectorsOf(doc, elements) <= doc.Keys
    ensures (forall c <- ConnectorsOf(doc, elements) - first :: Convertible(doc[c])) <==>
            (forall e <- elements :: doc[e.id].tag == Bus || Convertible(doc[e.id]))
  {
    forall e <- elements | doc[e.id].tag != Bus
      ensures e.id in first || e.id in ConnectorsOf(doc, elements) - first
    {
      assert IsConnector(doc[e.id]) || e.id in PlainOf(doc, elements);
    }
  }

  // Growing from any point inside the fixpoint ends in the same fixpoint.
  lemma SecondLoopReaches(doc: Document, all: set<Id>, start: set<Id>, first: set<Id>)
    requires all <= doc.Keys && start <= first <= Grow(doc, all, start)
    ensures Grow(doc, all - first, first) == Grow(doc, all, start)
  {
    GrowSaturated(doc, all, start);
    GrowSaturated(doc, all - first, first);
    GrowLeast(doc, all - first, first, Grow(doc, all, start));
    var reached := Grow(doc, all - first, first);
    forall c <- all | Ready(doc, c, reached) ensures c in reached {
      assert c in first || c in all - first;
    }
    GrowLeast(doc, all, start, reached);
  }

  // Whatever order the map of elements yields: the same outcome, and the same elements written.
  lemma OrderDoesNotMatter(doc: Document, a: seq<Scg>, b: seq<Scg>, before: set<Id>)
    requires Flat(doc, a, before) && forall e :: e in a <==> e in b
    requires ValidTree(doc, a) && ValidTree(doc, b)
    ensures WriteSpec(doc, a, before) == WriteSpec(doc, b, before)
  {
    FlatWrite(doc, a, before);
    FlatWrite(doc, b, before);
    assert ConnectorsOf(doc, a) == ConnectorsOf(doc, b);
    assert PlainOf(doc, a) == PlainOf(doc, b);
  }

  // ---- With contours ----

  // What has been written before never makes a call fail.
  lemma {:induction false} WriteMonotone(doc: Document, elements: seq<Scg>, some: set<Id>, more: set<Id>)
    requires ValidTree(doc, elements) && Once(doc, elements, some) && some <= more
    requires WriteSpec(doc, elements, some).Some?
    ensures WriteSpec(doc, elements, more).Some?
    decreases elements, 1
  {
    ValidPart(doc, elements, 0);
    ConnectorsConvertible(doc, elements, some);
    assert elements[..|elements|] == elements;
    FirstPhaseMonotone(doc, elements, |elements|, some, more);
    var first, later := FirstPhase(doc, elements, some).value, FirstPhase(doc, elements, more).value;
    SecondPhaseMonotone(doc, ConnectorsOf(doc, elements), first, later);
  }

  lemma ConnectorsConvertible(doc: Document, elements: seq<Scg>, before: set<Id>)
    requires ValidTree(doc, elements) && Once(doc, elements, before) && WriteSpec(doc, elements, before).Some?
    ensures forall e <- elements :: e.id in doc && (IsConnector(doc[e.id]) ==> Convertible(doc[e.id]))
  {
    WriteEnds(doc, elements, before);
    FirstPhaseCovers(doc, elements, before);
    WriteCovers(doc, elements, before);
    forall e <- elements | IsConnector(doc[e.id]) ensures Convertible(doc[e.id]) {
      WritableOf(doc, elements, e);
      assert e.id in ConnectorsOf(doc, elements);
      assert e.id in WriteSpec(doc, elements, before).value - before;
    }
  }

  // What is in a tree of the list is in the list.
  lemma {:induction false} WritableOf(doc: Document, elements: seq<Scg>, e: Scg)
    requires e in elements
    ensures WritableIn(doc, e) <= Writable(doc, elements)
    ensures e.id in doc && doc[e.id].tag != Bus ==> WritableIn(doc, e)[e.id] > 0
    decreases |elements|
  {
    var n := |elements| - 1;
    if e != elements[n] {
      assert e in elements[..n];
      WritableOf(doc, elements[..n], e);
    }
  }

  lemma OnceWithin(doc: Document, elements: seq<Scg>, e: Scg, before: set<Id>)
    requires ValidTree(doc, elements) && Once(doc, elements, before) && e in elements
    ensures Once(doc, e.children, before)
  {
    WritableOf(doc, elements, e);
    forall x ensures Writable(doc, e.children)[x] <= if x in before then 0 else 1 {
      assert Writable(doc, e.children)[x] <= WritableIn(doc, e)[x] <= Writable(doc, elements)[x];
    }
  }

  lemma {:induction false} FirstPhaseMonotone(
      doc: Document, elements: seq<Scg>, i: nat, some: set<Id>, more: set<Id>)
    requires ValidTree(doc, elements) && Once(doc, elements, some) && some <= more && i <= |elements|
    requires ValidTree(doc, elements[..i]) && FirstPhase(doc, elements[..i], some).Some?
    requires forall e <- elements :: e.id in doc && (IsConnector(doc[e.id]) ==> Convertible(doc[e.id]))
    ensures FirstPhase(doc, elements[..i], more).Some?
    ensures FirstPhase(doc, elements[..i], some).value <= FirstPhase(doc, elements[..i], more).value
    decreases elements, 0, i
  {
    if i > 0 {
      var n := i - 1;
      var e := elements[n];
      assert elements[..i][..n] == elements[..n] && elements[..i][n] == e;
      ValidPart(doc, elements, n);
      FirstPhaseMonotone(doc, elements, n, some, more);
      var a, b := FirstPhase(doc, elements[..n], some).value, FirstPhase(doc, elements[..n], more).value;
      FirstPhaseCovers(doc, elements[..n], some);
      OnceBelow(doc, elements, n, some, a);
      VisitMonotone(doc, e, a, b);
    }
  }

  lemma {:induction false} VisitMonotone(doc: Document, e: Scg, some: set<Id>, more: set<Id>)
    requires ValidTree(doc, [e]) && Once(doc, e.children, some) && some <= more && Visit(doc, e, some).Some?
    requires e.id in doc && (IsConnector(doc[e.id]) ==> Convertible(doc[e.id]))
    ensures Visit(doc, e, more).Some? && Visit(doc, e, some).value <= Visit(doc, e, more).value
    decreases e, 0
  {
    assert e in [e];
    if doc[e.id].tag == Contour {
      WriteMonotone(doc, e.children, some, more);
      WriteCovers(doc, e.children, some);
      WriteCovers(doc, e.children, more);
    }
  }

  lemma SecondPhaseMonotone(doc: Document, all: set<Id>, first: set<Id>, later: set<Id>)
    requires all <= doc.Keys && first <= later && all - first <= Grow(doc, all - first, first)
    ensures all - later <= Grow(doc, all - later, later)
  {
    GrowSaturated(doc, all, first);
    SecondLoopReaches(doc, all, first, first);
    ConnectorsReached(doc, all, first, later);
  }

  lemma ConnectorsReached(doc: Document, all: set<Id>, settled: set<Id>, first: set<Id>)
    requires all <= doc.Keys && settled <= first && all <= Grow(doc, all, settled)
    ensures all - first <= Grow(doc, all - first, first)
  {
    GrowSaturated(doc, all - first, first);
    var reached := Grow(doc, all - first, first);
    forall c <- all | Ready(doc, c, reached) ensures c in reached {
      assert c in first || c in all - first;
    }
    GrowLeast(doc, all, settled, reached);
  }

  // ---- In every order ----

  ghost predicate InEveryOrder(doc: Document, elements: seq<Scg>, before: set<Id>) {
    forall order: seq<Scg> ::
      ValidTree(doc, order) && multiset(order) == multiset(elements) ==> WriteSpec(doc, order, before).Some?
  }

  // What is in the contour can be written on its own.
  ghost predicate SelfContained(doc: Document, e: Scg, before: set<Id>)
    requires ValidTree(doc, [e])
  {
    assert e in [e];
    doc[e.id].tag == Contour ==> WriteSpec(doc, e.children, before).Some?
  }

  ghost predicate AllSelfContained(doc: Document, elements: seq<Scg>, before: set<Id>)
    requires ValidTree(doc, elements)
  {
    forall e <- elements :: ValidTree(doc, [e]) && SelfContained(doc, e, before)
  }

  // All that is written without being a connector of the list itself.
  ghost function Settled(doc: Document, elements: seq<Scg>): set<Id> {
    set e <- elements, x <- SetOf(WritableIn(doc, e)) | e.id in doc && !IsConnector(doc[e.id]) :: x
  }

  // The least set over it that has each connector of the list of which it has both ends.
  ghost function Closure(doc: Document, elements: seq<Scg>, before: set<Id>): set<Id>
    requires ConnectorsOf(doc, elements) <= doc.Keys
  {
    Grow(doc, ConnectorsOf(doc, elements), before + Settled(doc, elements))
  }

  // A call that succeeds stays within that set, so the set has all connectors.
  lemma WriteWithin(doc: Document, elements: seq<Scg>, before: set<Id>)
    requires ValidTree(doc, elements) && WriteSpec(doc, elements, before).Some?
    ensures ConnectorsOf(doc, elements) <= doc.Keys
    ensures ConnectorsOf(doc, elements) <= Closure(doc, elements, before)
  {
    ValidPart(doc, elements, 0);
    var all, bound := ConnectorsOf(doc, elements), Closure(doc, elements, before);
    GrowSaturated(doc, all, before + Settled(doc, elements));
    assert elements[..|elements|] == elements;
    FirstPhaseWithin(doc, elements, |elements|, before, bound);
    var first := FirstPhase(doc, elements, before).value;
    GrowLeast(doc, all - first, first, bound);
  }

  lemma {:induction false} FirstPhaseWithin(doc: Document, elements: seq<Scg>, i: nat, before: set<Id>, bound: set<Id>)
    requires ValidTree(doc, elements) && i <= |elements| && ValidTree(doc, elements[..i])
    requires FirstPhase(doc, elements[..i], before).Some?
    requires ConnectorsOf(doc, elements) <= doc.Keys && Saturated(doc, ConnectorsOf(doc, elements), bound)
    requires before + Settled(doc, elements) <= bound
    ensures FirstPhase(doc, elements[..i], before).value <= bound
    decreases i
  {
    if i > 0 {
      var n := i - 1;
      var e := elements[n];
      assert elements[..i][..n] == elements[..n] && elements[..i][n] == e;
      ValidPart(doc, elements, n);
      FirstPhaseWithin(doc, elements, n, before, bound);
      var sofar := FirstPhase(doc, elements[..n], before).value;
      VisitCovers(doc, e, sofar);
      assert e in elements && e in [e];
      if IsConnector(doc[e.id]) {
        assert e.id in ConnectorsOf(doc, elements);
        assert Ready(doc, e.id, sofar) ==> Ready(doc, e.id, bound);
      } else {
        assert SetOf(WritableIn(doc, e)) <= Settled(doc, elements);
      }
    }
  }

  lemma VisitSucceeds(doc: Document, e: Scg, before: set<Id>, sofar: set<Id>)
    requires ValidTree(doc, [e]) && SelfContained(doc, e, before) && before <= sofar
    requires e.id in doc && Convertible(doc[e.id]) && Once(doc, e.children, before)
    ensures Visit(doc, e, sofar).Some? && sofar <= Visit(doc, e, sofar).value
    ensures IsConnector(doc[e.id]) || SetOf(WritableIn(doc, e)) <= Visit(doc, e, sofar).value
  {
    assert e in [e];
    if doc[e.id].tag == Contour {
      WriteMonotone(doc, e.children, before, sofar);
    }
    VisitCovers(doc, e, sofar);
  }

  // All trees but those of connectors have been written.
  ghost predicate Settles(doc: Document, elements: seq<Scg>, first: set<Id>) {
    forall e <- elements :: e.id in doc && (IsConnector(doc[e.id]) || SetOf(WritableIn(doc, e)) <= first)
  }

  lemma SettlesMore(doc: Document, elements: seq<Scg>, e: Scg, first: set<Id>, next: set<Id>)
    requires Settles(doc, elements, first) && first <= next && e.id in doc
    requires IsConnector(doc[e.id]) || SetOf(WritableIn(doc, e)) <= next
    ensures Settles(doc, elements + [e], next)
  {
  }

  // When every element can be converted and every contour stands on its own, the first loop does not
  // throw, and what it leaves out is connectors of the list.
  lemma {:induction false} FirstPhaseSucceeds(doc: Document, elements: seq<Scg>, i: nat, before: set<Id>)
    requires ValidTree(doc, elements) && i <= |elements| && ValidTree(doc, elements[..i])
    requires AllSelfContained(doc, elements, before)
    requires forall e <- elements :: e.id in doc && Convertible(doc[e.id]) && Once(doc, e.children, before)
    ensures FirstPhase(doc, elements[..i], before).Some?
    ensures before <= FirstPhase(doc, elements[..i], before).value
    ensures Settles(doc, elements[..i], FirstPhase(doc, elements[..i], before).value)
    decreases i
  {
    if i > 0 {
      var n := i - 1;
      var e := elements[n];
      assert elements[..i][..n] == elements[..n] && elements[..i][n] == e && elements[..i] == elements[..n] + [e];
      ValidPart(doc, elements, n);
      FirstPhaseSucceeds(doc, elements, n, before);
      var sofar := FirstPhase(doc, elements[..n], before).value;
      assert e in elements;
      VisitSucceeds(doc, e, before, sofar);
      SettlesMore(doc, elements[..n], e, sofar, Visit(doc, e, sofar).value);
    }
  }

  lemma {:induction false} FirstPhaseConverts(doc: Document, elements: seq<Scg>, i: nat, before: set<Id>)
    requires ValidTree(doc, elements) && i <= |elements| && ValidTree(doc, elements[..i])
    requires FirstPhase(doc, elements[..i], before).Some?
    ensures forall e <- elements[..i] :: e.id in doc && (IsConnector(doc[e.id]) || Convertible(doc[e.id]))
    decreases i
  {
    if i > 0 {
      var n := i - 1;
      assert elements[..i][..n] == elements[..n] && elements[..i][n] == elements[n];
      ValidPart(doc, elements, n);
      FirstPhaseConverts(doc, elements, n, before);
      assert forall e <- elements[..i] :: e in elements[..n] || e == elements[n];
    }
  }

  lemma AllConvertible(doc: Document, elements: seq<Scg>, before: set<Id>)
    requires ValidTree(doc, elements) && Once(doc, elements, before) && WriteSpec(doc, elements, before).Some?
    ensures forall e <- elements :: e.id in doc && Convertible(doc[e.id]) && Once(doc, e.children, before)
  {
    assert elements[..|elements|] == elements;
    FirstPhaseConverts(doc, elements, |elements|, before);
    ConnectorsConvertible(doc, elements, before);
    forall e <- elements ensures Once(doc, e.children, before) {
      OnceWithin(doc, elements, e, before);
    }
  }

  // Which elements are written depends on the trees of the list and not on their order.
  lemma {:induction false} WrittenSomewhere(doc: Document, elements: seq<Scg>, x: Id)
    ensures x in SetOf(Writable(doc, elements)) <==> exists e <- elements :: x in SetOf(WritableIn(doc, e))
    decreases |elements|
  {
    if elements != [] {
      var n := |elements| - 1;
      WrittenSomewhere(doc, elements[..n], x);
      assert elements[n] in elements;
      assert forall e :: e in elements <==> e in elements[..n] || e == elements[n];
    }
  }

  lemma SameWritable(doc: Document, elements: seq<Scg>, order: seq<Scg>)
    requires forall e :: e in order <==> e in elements
    ensures SetOf(Writable(doc, order)) == SetOf(Writable(doc, elements))
  {
    forall x ensures x in SetOf(Writable(doc, order)) <==> x in SetOf(Writable(doc, elements)) {
      WrittenSomewhere(doc, order, x);
      WrittenSomewhere(doc, elements, x);
    }
  }

  // A list goes through when its elements can be converted, its contours stand on their own, and its
  // connectors are in the fixpoint over all the rest.
  lemma GoesThrough(doc: Document, order: seq<Scg>, before: set<Id>)
    requires ValidTree(doc, order) && AllSelfContained(doc, order, before)
    requires forall e <- order :: e.id in doc && Convertible(doc[e.id]) && Once(doc, e.children, before)
    requires ConnectorsOf(doc, order) <= doc.Keys && ConnectorsOf(doc, order) <= Closure(doc, order, before)
    ensures WriteSpec(doc, order, before).Some?
  {
    assert order[..|order|] == order;
    FirstPhaseSucceeds(doc, order, |order|, before);
    var first := FirstPhase(doc, order, before).value;
    ConnectorsReached(doc, ConnectorsOf(doc, order), before + Settled(doc, order), first);
  }

  // When a list goes through and its contours stand on their own, it goes through in any other order,
  // and the same is written.
  lemma WriteInOrder(doc: Document, elements: seq<Scg>, order: seq<Scg>, before: set<Id>)
    requires ValidTree(doc, elements) && ValidTree(doc, order) && forall e :: e in order <==> e in elements
    requires Once(doc, elements, before) && AllSelfContained(doc, elements, before)
    requires WriteSpec(doc, elements, before).Some?
    ensures WriteSpec(doc, order, before) == WriteSpec(doc, elements, before)
  {
    AllConvertible(doc, elements, before);
    WriteWithin(doc, elements, before);
    assert ConnectorsOf(doc, order) == ConnectorsOf(doc, elements) && Settled(doc, order) == Settled(doc, elements);
    GoesThrough(doc, order, before);
    WriteCovers(doc, elements, before);
    WriteCovers(doc, order, before);
    SameWritable(doc, elements, order);
  }

  lemma BroughtToFront(doc: Document, elements: seq<Scg>, i: nat) returns (order: seq<Scg>)
    requires ValidTree(doc, elements) && i < |elements|
    ensures ValidTree(doc, order) && multiset(order) == multiset(elements)
    ensures order != [] && order[..1] == [elements[i]]
  {
    var e := elements[i];
    order := [e] + (elements[..i] + elements[i + 1..]);
    assert elements == elements[..i] + [e] + elements[i + 1..];
    assert forall d <- order :: d in elements;
  }

  // A contour that comes first has to stand on its own.
  lemma ContourComesFirst(doc: Document, elements: seq<Scg>, i: nat, before: set<Id>)
    requires ValidTree(doc, elements) && i < |elements| && ValidTree(doc, [elements[i]])
    requires InEveryOrder(doc, elements, before)
    ensures SelfContained(doc, elements[i], before)
  {
    var order := BroughtToFront(doc, elements, i);
    OneVisit(doc, elements[i], before);
    if Visit(doc, elements[i], before).None? {
      ThrownEarly(doc, order, 1, before);
    }
  }

  // The list goes through in every order if and only if it goes through in the given one and every
  // contour of it goes through alone.
  lemma WriteInEveryOrder(doc: Document, elements: seq<Scg>, before: set<Id>)
    requires ValidTree(doc, elements) && Once(doc, elements, before)
    ensures InEveryOrder(doc, elements, before) <==>
            WriteSpec(doc, elements, before).Some? && AllSelfContained(doc, elements, before)
  {
    if InEveryOrder(doc, elements, before) {
      forall e <- elements ensures ValidTree(doc, [e]) && SelfContained(doc, e, before) {
        var i :| 0 <= i < |elements| && elements[i] == e;
        ValidPart(doc, elements, i);
        ContourComesFirst(doc, elements, i, before);
      }
    }
    if WriteSpec(doc, elements, before).Some? && AllSelfContained(doc, elements, before) {
      forall order: seq<Scg> | ValidTree(doc, order) && multiset(order) == multiset(elements)
        ensures WriteSpec(doc, order, before).Some?
      {
        assert forall e :: e in order <==> e in multiset(order);
        assert forall e :: e in elements <==> e in multiset(elements);
        WriteInOrder(doc, elements, order, before);
      }
    }
  }

  // ---- In every order, at every depth ----

  // The same trees, in any order at every depth.
  ghost predicate Reordered(a: seq<Scg>, b: seq<Scg>)
    decreases a, 1
  {
    exists c: seq<Scg> :: Alike(a, c) && multiset(c) == multiset(b)
  }

  // The same elements in the same order, what is inside them in any.
  ghost predicate Alike(a: seq<Scg>, c: seq<Scg>)
    decreases a, 0
  {
    |a| == |c| && forall i :: 0 <= i < |a| ==> a[i].id == c[i].id && Reordered(a[i].children, c[i].children)
  }

  lemma {:induction false} ReorderedSelf(a: seq<Scg>)
    ensures Alike(a, a) && Reordered(a, a)
    decreases a
  {
    forall i | 0 <= i < |a| ensures Reordered(a[i].children, a[i].children) {
      ReorderedSelf(a[i].children);
    }
  }

  lemma {:induction false} WritableConcat(doc: Document, a: seq<Scg>, b: seq<Scg>)
    ensures Writable(doc, a + b) == Writable(doc, a) + Writable(doc, b)
    decreases |b|
  {
    if b == [] {
      assert a + b == a;
    } else {
      LastOfConcat(a, b);
      WritableConcat(doc, a, b[..|b| - 1]);
    }
  }

  lemma LastOfConcat(a: seq<Scg>, b: seq<Scg>)
    requires b != []
    ensures (a + b)[..|a + b| - 1] == a + b[..|b| - 1] && (a + b)[|a + b| - 1] == b[|b| - 1]
  {
  }

  lemma WithoutOne(doc: Document, b: seq<Scg>, j: nat)
    requires j < |b|
    ensures multiset(b[..j] + b[j + 1..]) == multiset(b) - multiset{b[j]}
    ensures Writable(doc, b) == Writable(doc, b[..j] + b[j + 1..]) + WritableIn(doc, b[j])
  {
    assert b == b[..j + 1] + b[j + 1..];
    Unfold(doc, b, j);
    WritableConcat(doc, b[..j + 1], b[j + 1..]);
    WritableConcat(doc, b[..j], b[j + 1..]);
  }

  lemma {:induction false} PermutedWritable(doc: Document, a: seq<Scg>, b: seq<Scg>)
    requires multiset(a) == multiset(b)
    ensures Writable(doc, a) == Writable(doc, b)
    decreases |a|
  {
    if a == [] {
      assert |multiset(b)| == 0;
    } else {
      var n := |a| - 1;
      assert a == a[..n] + [a[n]];
      assert a[n] in multiset(b);
      var j :| 0 <= j < |b| && b[j] == a[n];
      WithoutOne(doc, b, j);
      assert multiset(a[..n]) == multiset(a) - multiset{a[n]};
      PermutedWritable(doc, a[..n], b[..j] + b[j + 1..]);
    }
  }

  lemma {:induction false} AlikeWritable(doc: Document, a: seq<Scg>, c: seq<Scg>)
    requires Alike(a, c)
    ensures Writable(doc, a) == Writable(doc, c)
    ensures forall i :: 0 <= i < |a| ==> WritableIn(doc, a[i]) == WritableIn(doc, c[i])
    decreases a, 0
  {
    forall i | 0 <= i < |a| ensures WritableIn(doc, a[i]) == WritableIn(doc, c[i]) {
      ReorderedWritable(doc, a[i].children, c[i].children);
    }
    PointwiseWritable(doc, a, c);
  }

  lemma {:induction false} PointwiseWritable(doc: Document, a: seq<Scg>, c: seq<Scg>)
    requires |a| == |c| && forall i :: 0 <= i < |a| ==> WritableIn(doc, a[i]) == WritableIn(doc, c[i])
    ensures Writable(doc, a) == Writable(doc, c)
    decreases |a|
  {
    if a != [] {
      PointwiseWritable(doc, a[..|a| - 1], c[..|c| - 1]);
    }
  }

  lemma {:induction false} ReorderedWritable(doc: Document, a: seq<Scg>, b: seq<Scg>)
    requires Reordered(a, b)
    ensures Writable(doc, a) == Writable(doc, b)
    decreases a, 1
  {
    var c: seq<Scg> :| Alike(a, c) && multiset(c) == multiset(b);
    AlikeWritable(doc, a, c);
    PermutedWritable(doc, c, b);
  }

  // Reordering leaves valid trees valid.
  lemma {:induction false} ReorderedValid(doc: Document, a: seq<Scg>, b: seq<Scg>)
    requires ValidTree(doc, a) && Reordered(a, b)
    ensures ValidTree(doc, b)
    decreases a
  {
    var c: seq<Scg> :| Alike(a, c) && multiset(c) == multiset(b);
    forall e <- b
      ensures e.id in doc && (e.children != [] ==> doc[e.id].tag == Contour) && ValidTree(doc, e.children)
    {
      var i := PlaceOf(c, b, e);
      assert a[i] in a;
      ReorderedValid(doc, a[i].children, e.children);
      SameLength(a[i].children, e.children);
    }
  }

  lemma SameLength(a: seq<Scg>, b: seq<Scg>)
    requires Reordered(a, b)
    ensures |a| == |b|
  {
    var c: seq<Scg> :| Alike(a, c) && multiset(c) == multiset(b);
    assert |multiset(c)| == |multiset(b)|;
  }

  ghost predicate InEveryDeepOrder(doc: Document, elements: seq<Scg>, before: set<Id>) {
    forall order: seq<Scg> ::
      ValidTree(doc, order) && Reordered(elements, order) ==> WriteSpec(doc, order, before).Some?
  }

  // The list goes through, and so does on its own what is in any contour, at any depth.
  ghost predicate Robust(doc: Document, elements: seq<Scg>, before: set<Id>)
    requires ValidTree(doc, elements)
    decreases elements
  {
    && WriteSpec(doc, elements, before).Some?
    && forall e <- elements :: e.id in doc && doc[e.id].tag == Contour ==> Robust(doc, e.children, before)
  }

  // What the element needs to go through at any place of the list.
  ghost predicate Fit(doc: Document, e: Scg, before: set<Id>) {
    && ValidTree(doc, [e]) && SelfContained(doc, e, before)
    && e.id in doc && Convertible(doc[e.id]) && Once(doc, e.children, before)
  }

  lemma {:induction false} RobustIsFit(doc: Document, d: Scg, e: Scg, before: set<Id>)
    requires ValidTree(doc, [d]) && ValidTree(doc, d.children) && ValidTree(doc, e.children) && ValidTree(doc, [e])
    requires d.id == e.id && e.id in doc && Reordered(d.children, e.children)
    requires Convertible(doc[d.id]) && Once(doc, d.children, before)
    requires doc[d.id].tag == Contour ==> Robust(doc, d.children, before)
    ensures Fit(doc, e, before)
    decreases d, 0
  {
    ReorderedWritable(doc, d.children, e.children);
    if doc[e.id].tag == Contour {
      RobustInOrder(doc, d.children, e.children, before);
    }
  }

  lemma {:induction false} RobustInOrder(doc: Document, elements: seq<Scg>, order: seq<Scg>, before: set<Id>)
    requires ValidTree(doc, elements) && ValidTree(doc, order) && Reordered(elements, order)
    requires Once(doc, elements, before) && Robust(doc, elements, before)
    ensures WriteSpec(doc, order, before) == WriteSpec(doc, elements, before)
    decreases elements, 1
  {
    var c: seq<Scg> :| Alike(elements, c) && multiset(c) == multiset(order);
    AllConvertible(doc, elements, before);
    forall e <- order ensures Fit(doc, e, before) {
      var i := PlaceOf(c, order, e);
      var k :| 0 <= k < |order| && order[k] == e;
      ValidPart(doc, elements, i);
      ValidPart(doc, order, k);
      assert elements[i] in elements;
      RobustIsFit(doc, elements[i], e, before);
    }
    WriteWithin(doc, elements, before);
    SameSettled(doc, elements, c, order);
    GoesThrough(doc, order, before);
    SameOutcome(doc, elements, order, before);
  }

  lemma PlaceOf(c: seq<Scg>, order: seq<Scg>, e: Scg) returns (i: nat)
    requires multiset(c) == multiset(order) && e in order
    ensures i < |c| && c[i] == e
  {
    assert e in multiset(c);
    i :| i < |c| && c[i] == e;
  }

  lemma SameOutcome(doc: Document, elements: seq<Scg>, order: seq<Scg>, before: set<Id>)
    requires ValidTree(doc, elements) && ValidTree(doc, order) && Reordered(elements, order)
    requires WriteSpec(doc, elements, before).Some? && WriteSpec(doc, order, before).Some?
    ensures WriteSpec(doc, order, before) == WriteSpec(doc, elements, before)
  {
    ReorderedWritable(doc, elements, order);
    WriteCovers(doc, elements, before);
    WriteCovers(doc, order, before);
  }

  lemma SameSettled(doc: Document, elements: seq<Scg>, c: seq<Scg>, order: seq<Scg>)
    requires Alike(elements, c) && multiset(c) == multiset(order)
    ensures ConnectorsOf(doc, order) == ConnectorsOf(doc, elements) && Settled(doc, order) == Settled(doc, elements)
  {
    AlikeSettled(doc, elements, c);
    forall e ensures e in order <==> e in c {
      assert e in multiset(order) <==> e in multiset(c);
    }
    SameElements(doc, c, order);
  }

  lemma SameElements(doc: Document, a: seq<Scg>, b: seq<Scg>)
    requires forall e :: e in a <==> e in b
    ensures ConnectorsOf(doc, a) == ConnectorsOf(doc, b) && Settled(doc, a) == Settled(doc, b)
  {
  }

  lemma AlikeSettled(doc: Document, a: seq<Scg>, c: seq<Scg>)
    requires Alike(a, c)
    ensures ConnectorsOf(doc, c) == ConnectorsOf(doc, a) && Settled(doc, c) == Settled(doc, a)
  {
    AlikeWritable(doc, a, c);
    PartsWithin(doc, a, c);
    PartsWithin(doc, c, a);
  }

  lemma PartsWithin(doc: Document, a: seq<Scg>, c: seq<Scg>)
    requires |a| == |c|
    requires forall i :: 0 <= i < |a| ==> a[i].id == c[i].id && WritableIn(doc, a[i]) == WritableIn(doc, c[i])
    ensures ConnectorsOf(doc, a) <= ConnectorsOf(doc, c) && Settled(doc, a) <= Settled(doc, c)
  {
    forall e <- a ensures exists d <- c :: d.id == e.id && WritableIn(doc, d) == WritableIn(doc, e) {
      var i :| 0 <= i < |a| && a[i] == e;
      assert c[i] in c;
    }
  }

  // The first contour, with what is inside it in another order.
  lemma ContourReordered(doc: Document, elements: seq<Scg>, i: nat, inside: seq<Scg>) returns (order: seq<Scg>)
    requires ValidTree(doc, elements) && i < |elements| && elements[i].id in doc && doc[elements[i].id].tag == Contour
    requires Reordered(elements[i].children, inside) && ValidTree(doc, inside)
    ensures ValidTree(doc, order) && Reordered(elements, order) && order != []
    ensures order[..1] == [Scg(elements[i].id, inside)]
  {
    var e := Scg(elements[i].id, inside);
    var c := elements[i := e];
    forall d <- c ensures d in elements || d == e {
    }
    assert ValidTree(doc, c);
    ReorderedSelf(elements);
    assert Alike(elements, c);
    order := BroughtToFront(doc, c, i);
  }

  // What is inside a contour has to go through alone in every order: the contour may come first.
  lemma InsideInEveryDeepOrder(doc: Document, elements: seq<Scg>, i: nat, before: set<Id>)
    requires ValidTree(doc, elements) && InEveryDeepOrder(doc, elements, before)
    requires i < |elements| && elements[i].id in doc && doc[elements[i].id].tag == Contour
    ensures InEveryDeepOrder(doc, elements[i].children, before)
  {
    forall inside: seq<Scg> | ValidTree(doc, inside) && Reordered(elements[i].children, inside)
      ensures WriteSpec(doc, inside, before).Some?
    {
      var order := ContourReordered(doc, elements, i, inside);
      FirstContour(doc, order, Scg(elements[i].id, inside), before);
    }
  }

  lemma FirstContour(doc: Document, order: seq<Scg>, first: Scg, before: set<Id>)
    requires ValidTree(doc, order) && order != [] && order[..1] == [first] && WriteSpec(doc, order, before).Some?
    requires first.id in doc && doc[first.id].tag == Contour && ValidTree(doc, first.children)
    ensures WriteSpec(doc, first.children, before).Some?
  {
    ValidPart(doc, order, 1);
    OneVisit(doc, first, before);
    if Visit(doc, first, before).None? {
      ThrownEarly(doc, order, 1, before);
    }
  }

  lemma {:induction false} DeepOrderMeansRobust(doc: Document, elements: seq<Scg>, before: set<Id>)
    requires ValidTree(doc, elements) && InEveryDeepOrder(doc, elements, before)
    ensures Robust(doc, elements, before)
    decreases elements
  {
    ReorderedSelf(elements);
    forall e <- elements | e.id in doc && doc[e.id].tag == Contour ensures Robust(doc, e.children, before) {
      var i :| 0 <= i < |elements| && elements[i] == e;
      InsideInEveryDeepOrder(doc, elements, i, before);
      DeepOrderMeansRobust(doc, e.children, before);
    }
  }

  // The list goes through in every order at every depth if and only if it goes through in the given
  // one and what is in any contour, at any depth, goes through alone.
  lemma WriteInEveryDeepOrder(doc: Document, elements: seq<Scg>, before: set<Id>)
    requires ValidTree(doc, elements) && Once(doc, elements, before)
    ensures InEveryDeepOrder(doc, elements, before) <==> Robust(doc, elements, before)
  {
    if InEveryDeepOrder(doc, elements, before) {
      DeepOrderMeansRobust(doc, elements, before);
    }
    if Robust(doc, elements, before) {
      forall order: seq<Scg> | ValidTree(doc, order) && Reordered(elements, order)
        ensures WriteSpec(doc, order, before).Some?
      {
        RobustInOrder(doc, elements, order, before);
      }
    }
  }

  // A contour is written as a whole, so a connector inside it cannot wait for an element outside:
  // with the contour first the same document throws that goes through with the contour last.
  lemma ContourOrderMatters(node: Scg, contour: Scg, inner: Scg, info: Info, arc: Info, frame: Info)
    requires node == Scg("n", []) && inner == Scg("c", []) && contour == Scg("k", [inner])
    requires info.tag == Node && arc.tag == Arc && arc.source == arc.target == "n" && frame.tag == Contour
    requires Convertible(info) && Convertible(arc)
    ensures
      var doc: Document := map["n" := info, "c" := arc, "k" := frame];
      && ValidDocument(doc) && ValidTree(doc, [node, contour]) && ValidTree(doc, [contour, node])
      && WriteSpec(doc, [node, contour], {}) == Some({"n", "c", "k"})
      && WriteSpec(doc, [contour, node], {}) == None
  {
    var doc: Document := map["n" := info, "c" := arc, "k" := frame];
    assert ReplaceDash("c") == "c";
    assert ValidTree(doc, [inner]);
    assert forall e <- [contour] :: e == contour;
    assert ValidTree(doc, [node]) && ValidTree(doc, [contour]);
    assert forall e :: e in [node, contour] <==> e in [contour, node];
    NodeFirst(doc, node, contour, inner);
    ContourFirst(doc, node, contour, inner);
  }

  ghost predicate Loop(doc: Document, node: Scg, contour: Scg, inner: Scg) {
    && node == Scg("n", []) && inner == Scg("c", []) && contour == Scg("k", [inner])
    && doc.Keys == {"n", "c", "k"} && doc["n"].tag == Node && doc["c"].tag == Arc && doc["k"].tag == Contour
    && doc["c"].source == doc["c"].target == "n" && Convertible(doc["n"]) && Convertible(doc["c"])
    && ValidTree(doc, [node, contour]) && ValidTree(doc, [contour, node]) && ValidTree(doc, [node])
    && ValidTree(doc, [contour]) && ValidTree(doc, [inner])
  }

  lemma ContourFirst(doc: Document, node: Scg, contour: Scg, inner: Scg)
    requires Loop(doc, node, contour, inner)
    ensures WriteSpec(doc, [contour, node], {}) == None
  {
    OneVisit(doc, inner, {});
    OneVisit(doc, contour, {});
    assert [contour, node][..1] == [contour];
    assert ConnectorsOf(doc, [inner]) == {"c"};
    assert WriteSpec(doc, [inner], {}) == None by {
      assert {"c"} - {} == {"c"};
      assert Grow(doc, {"c"}, {}) == {};
    }
    ThrownEarly(doc, [contour, node], 1, {});
  }

  lemma NodeFirst(doc: Document, node: Scg, contour: Scg, inner: Scg)
    requires Loop(doc, node, contour, inner)
    ensures WriteSpec(doc, [node, contour], {}) == Some({"n", "c", "k"})
  {
    OneVisit(doc, node, {});
    OneVisit(doc, inner, {"n"});
    assert [node, contour][..1] == [node];
    assert {} + {"n"} == {"n"} && {"n"} + {"c"} == {"n", "c"} && {"n", "c"} + {"k"} == {"n", "c", "k"};
    NothingDeferred(doc, [inner], {"n"}, {"n", "c"});
    assert FirstPhase(doc, [node, contour], {}) == Visit(doc, contour, {"n"});
    NothingDeferred(doc, [node, contour], {}, {"n", "c", "k"});
  }

  lemma NothingDeferred(doc: Document, elements: seq<Scg>, before: set<Id>, first: set<Id>)
    requires ValidTree(doc, elements) && FirstPhase(doc, elements, before) == Some(first)
    requires ConnectorsOf(doc, elements) <= first
    ensures WriteSpec(doc, elements, before) == Some(first)
  {
    assert ConnectorsOf(doc, elements) - first == {};
    assert Grow(doc, {}, first) == first;
  }

  lemma OneVisit(doc: Document, e: Scg, written: set<Id>)
    requires ValidTree(doc, [e])
    ensures FirstPhase(doc, [e], written) == Visit(doc, e, written)
  {
    assert [e][..0] == [];
    assert FirstPhase(doc, [e][..0], written) == Some(written);
  }
}
