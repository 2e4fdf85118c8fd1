// How an oriented set lies in memory: its membership arcs form one chain under
// nrel_basic_sequence, whose head carries the only rrel_1 mark and whose tail the only rrel_last
// mark. The lemmas say what a chain survives and how it grows and shrinks.
module OrientedChain {
  import opened ScTypes
  import opened ScGraph

  datatype Keynodes = Keynodes(rrel1: Addr, rrelLast: Addr, basicSequence: Addr) {
    function All(): set<Addr> { {rrel1, rrelLast, basicSequence} }
  }

  // The keynodes are three different constant nodes.
  ghost predicate Ready(g: Graph, k: Keynodes) {
    && Wf(g)
    && k.rrel1 != k.rrelLast && k.rrel1 != k.basicSequence && k.rrelLast != k.basicSequence
    && forall a <- k.All() :: a in g && !IsConnector(g[a].ty) && HasSubtype(g[a].ty, CONST_NODE)
  }

  // Arc types the iterators of the oriented set find.
  predicate MembershipType(t: ScType) {
    ConnectorType(t) && HasSubtype(t, CONST_POS_ARC)
  }

  predicate IsMember(g: Graph, s: Addr, a: Addr) {
    a in g && g[a].begin == s && HasSubtype(g[a].ty, CONST_POS_ARC)
  }

  predicate Marks(g: Graph, mark: Addr, role: Addr, a: Addr) {
    mark in g && g[mark].begin == role && g[mark].end == a && HasSubtype(g[mark].ty, CONST_POS_ARC)
  }

  // `link` is a common arc from a to b, and `mark` puts it into nrel_basic_sequence.
  predicate Sequences(g: Graph, k: Keynodes, a: Addr, b: Addr, link: Addr, mark: Addr) {
    && link in g && g[link].begin == a && g[link].end == b && HasSubtype(g[link].ty, CONST_COMMON_ARC)
    && Marks(g, mark, k.basicSequence, link)
  }

  ghost predicate Follows(g: Graph, k: Keynodes, a: Addr, b: Addr) {
    exists link, mark :: Sequences(g, k, a, b, link, mark)
  }

  ghost predicate Adjacent(arcs: seq<Addr>, a: Addr, b: Addr) {
    exists i :: 0 <= i && i + 1 < |arcs| && a == arcs[i] && b == arcs[i + 1]
  }

  ghost predicate Distinct(arcs: seq<Addr>) {
    forall i, j :: 0 <= i < j < |arcs| ==> arcs[i] != arcs[j]
  }

  // Exactly one mark of the role falls on the arcs, and it falls on `a`.
  ghost predicate OnlyMark(g: Graph, role: Addr, arcs: seq<Addr>, a: Addr) {
    && (exists mark :: Marks(g, mark, role, a))
    && forall mark, other, x, y :: x in arcs && y in arcs && Marks(g, mark, role, x) && Marks(g, other, role, y)
         ==> x == a && mark == other
  }

  ghost predicate Unmarked(g: Graph, role: Addr, arcs: seq<Addr>) {
    forall mark, x :: x in arcs ==> !Marks(g, mark, role, x)
  }

  ghost predicate Sequenced(g: Graph, k: Keynodes, arcs: seq<Addr>) {
    forall a, b :: a in arcs || b in arcs ==> (Follows(g, k, a, b) <==> Adjacent(arcs, a, b))
  }

  ghost predicate HasMembers(g: Graph, s: Addr, arcs: seq<Addr>) {
    Distinct(arcs) && forall a :: a in arcs <==> IsMember(g, s, a)
  }

  ghost predicate Chain(g: Graph, k: Keynodes, s: Addr, arcs: seq<Addr>) {
    && HasMembers(g, s, arcs)
    && Sequenced(g, k, arcs)
    && (arcs != [] ==> OnlyMark(g, k.rrel1, arcs, arcs[0]) && OnlyMark(g, k.rrelLast, arcs, arcs[|arcs| - 1]))
  }

  // The sequence of elements that a chain stands for.
  ghost function Elements(g: Graph, arcs: seq<Addr>): (e: seq<Addr>)
    requires forall a <- arcs :: a in g
    ensures |e| == |arcs|
  {
    seq(|arcs|, i requires 0 <= i < |arcs| => g[arcs[i]].end)
  }

  // ---- Erasing `x` ----

  // Nothing of the set hangs on x, and x is no piece of the set's sequence.
  ghost predicate Outside(g: Graph, k: Keynodes, s: Addr, arcs: seq<Addr>, x: Addr) {
    && x in g
    && Cascade(g, {x}) !! Members(arcs) + {s} + k.All()
    && g[x].begin !in arcs && g[x].begin != k.basicSequence
  }

  lemma Survives(g: Graph, x: Addr, y: Addr)
    requires Wf(g) && y in g && y != x
    requires IsConnector(g[y].ty)
    requires g[y].begin !in Cascade(g, {x}) && g[y].end !in Cascade(g, {x})
    ensures y in Del(g, {x}) && Del(g, {x})[y] == g[y]
  {
    if y in Cascade(g, {x}) {
      CascadeHangs(g, {x}, y);
    }
  }

  lemma MembersOutlive(g: Graph, k: Keynodes, s: Addr, arcs: seq<Addr>, x: Addr)
    requires Ready(g, k) && HasMembers(g, s, arcs) && Outside(g, k, s, arcs, x)
    ensures HasMembers(Del(g, {x}), s, arcs)
  {
    CascadeClosed(g, {x});
    forall a ensures a in arcs <==> IsMember(Del(g, {x}), s, a) {
      assert a in arcs ==> a in Members(arcs);
    }
  }

  lemma FollowsAfterDel(g: Graph, k: Keynodes, x: Addr, a: Addr, b: Addr)
    requires Ready(g, k) && x in g && g[x].begin != a && g[x].begin != k.basicSequence
    requires Cascade(g, {x}) !! {a, b} + k.All()
    ensures Follows(Del(g, {x}), k, a, b) <==> Follows(g, k, a, b)
  {
    var g' := Del(g, {x});
    if Follows(g, k, a, b) {
      var link, mark :| Sequences(g, k, a, b, link, mark);
      CommonArcs();
      Survives(g, x, link);
      Survives(g, x, mark);
      assert Sequences(g', k, a, b, link, mark);
    }
    if Follows(g', k, a, b) {
      var link, mark :| Sequences(g', k, a, b, link, mark);
      assert Sequences(g, k, a, b, link, mark);
    }
  }

  lemma CommonArcs()
    ensures forall t: ScType :: HasSubtype(t, CONST_COMMON_ARC) || HasSubtype(t, CONST_POS_ARC) ==> IsConnector(t)
  {
  }

  lemma SequenceOutlives(g: Graph, k: Keynodes, s: Addr, arcs: seq<Addr>, x: Addr)
    requires Ready(g, k) && Sequenced(g, k, arcs) && Outside(g, k, s, arcs, x)
    ensures Sequenced(Del(g, {x}), k, arcs)
  {
    var g' := Del(g, {x});
    forall a, b | a in arcs || b in arcs
      ensures Follows(g', k, a, b) <==> Adjacent(arcs, a, b)
    {
      if Adjacent(arcs, a, b) {
        assert {a, b} <= Members(arcs);
        FollowsAfterDel(g, k, x, a, b);
      } else if Follows(g', k, a, b) {
        var link, mark :| Sequences(g', k, a, b, link, mark);
        assert Sequences(g, k, a, b, link, mark);
      }
    }
  }

  lemma MarkOutlives(g: Graph, k: Keynodes, role: Addr, arcs: seq<Addr>, a: Addr, x: Addr)
    requires Ready(g, k) && OnlyMark(g, role, arcs, a) && a in arcs && x in g
    requires Cascade(g, {x}) !! Members(arcs) + {role}
    requires g[x].begin == role ==> g[x].end !in arcs
    ensures OnlyMark(Del(g, {x}), role, arcs, a)
  {
    var mark :| Marks(g, mark, role, a);
    CommonArcs();
    assert a in Members(arcs);
    Survives(g, x, mark);
    assert Marks(Del(g, {x}), mark, role, a);
    assert forall m, y :: Marks(Del(g, {x}), m, role, y) ==> Marks(g, m, role, y);
  }

  lemma ChainOutlives(g: Graph, k: Keynodes, s: Addr, arcs: seq<Addr>, x: Addr)
    requires Ready(g, k) && Chain(g, k, s, arcs) && Outside(g, k, s, arcs, x)
    requires g[x].begin in k.All() ==> g[x].end !in arcs
    ensures Chain(Del(g, {x}), k, s, arcs)
  {
    MembersOutlive(g, k, s, arcs, x);
    SequenceOutlives(g, k, s, arcs, x);
    if arcs != [] {
      MarkOutlives(g, k, k.rrel1, arcs, arcs[0], x);
      MarkOutlives(g, k, k.rrelLast, arcs, arcs[|arcs| - 1], x);
    }
  }

  // ---- Adding a connector ----

  // The new connector is no member of the set, marks none of its arcs and sequences none of them.
  ghost predicate Unrelated(g: Graph, k: Keynodes, s: Addr, arcs: seq<Addr>, el: Element) {
    && el.begin != s
    && (el.begin in {k.rrel1, k.rrelLast} ==> el.end !in arcs)
    && (el.begin == k.basicSequence ==>
          el.end in g && g[el.end].begin !in arcs && g[el.end].end !in arcs)
  }

  lemma MembersAdd(g: Graph, s: Addr, arcs: seq<Addr>, n: Addr, el: Element)
    requires HasMembers(g, s, arcs) && n !in g && el.begin != s
    ensures HasMembers(g[n := el], s, arcs)
  {
    assert forall a :: IsMember(g[n := el], s, a) <==> IsMember(g, s, a);
  }

  lemma FollowsAdd(g: Graph, k: Keynodes, a: Addr, b: Addr, n: Addr, el: Element)
    requires Wf(g) && n !in g
    requires el.end != n && (el.begin == k.basicSequence ==>
               el.end in g && !(g[el.end].begin == a && g[el.end].end == b))
    ensures Follows(g[n := el], k, a, b) <==> Follows(g, k, a, b)
  {
    var g' := g[n := el];
    CommonArcs();
    if Follows(g, k, a, b) {
      var link, mark :| Sequences(g, k, a, b, link, mark);
      assert Sequences(g', k, a, b, link, mark);
    }
    if Follows(g', k, a, b) {
      var link, mark :| Sequences(g', k, a, b, link, mark);
      assert mark == n || mark in g;
      assert link != n;
      assert Sequences(g, k, a, b, link, mark);
    }
  }

  lemma MarkAdd(g: Graph, role: Addr, arcs: seq<Addr>, a: Addr, n: Addr, el: Element)
    requires OnlyMark(g, role, arcs, a) && n !in g
    requires el.begin == role ==> el.end !in arcs
    ensures OnlyMark(g[n := el], role, arcs, a)
  {
    var mark :| Marks(g, mark, role, a);
    var g' := g[n := el];
    assert Marks(g', mark, role, a);
    forall m, o, x, y | x in arcs && y in arcs && Marks(g', m, role, x) && Marks(g', o, role, y)
      ensures x == a && m == o
    {
      assert Marks(g, m, role, x) && Marks(g, o, role, y);
    }
  }

  lemma ChainAdd(g: Graph, k: Keynodes, s: Addr, arcs: seq<Addr>, n: Addr, el: Element)
    requires Ready(g, k) && Chain(g, k, s, arcs) && n !in g && el.end != n && Unrelated(g, k, s, arcs, el)
    ensures Chain(g[n := el], k, s, arcs)
  {
    MembersAdd(g, s, arcs, n, el);
    forall a, b | a in arcs || b in arcs
      ensures Follows(g[n := el], k, a, b) <==> Adjacent(arcs, a, b)
    {
      FollowsAdd(g, k, a, b, n, el);
    }
    if arcs != [] {
      MarkAdd(g, k.rrel1, arcs, arcs[0], n, el);
      MarkAdd(g, k.rrelLast, arcs, arcs[|arcs| - 1], n, el);
    }
  }

  // ---- A set's own chain ----

  // A new membership arc `n`, not yet sequenced: the set has one more member.
  lemma MembersSnoc(g: Graph, s: Addr, arcs: seq<Addr>, n: Addr, el: Element)
    requires Wf(g) && HasMembers(g, s, arcs) && n !in g
    requires el.begin == s && HasSubtype(el.ty, CONST_POS_ARC)
    ensures HasMembers(g[n := el], s, arcs + [n])
  {
    var g' := g[n := el];
    var arcs' := arcs + [n];
    assert !IsMember(g, s, n);
    forall a ensures a in arcs' <==> IsMember(g', s, a) {
      assert a in arcs' <==> a in arcs || a == n;
      assert a != n ==> (IsMember(g', s, a) <==> IsMember(g, s, a));
    }
  }

  // The first member is in sequence by itself.
  lemma SequenceFirst(g: Graph, k: Keynodes, s: Addr, n: Addr, el: Element)
    requires Ready(g, k) && n !in g && el.begin == s && s !in k.All() && el.end in g
    ensures Sequenced(g[n := el], k, [n])
  {
    var g' := g[n := el];
    CommonArcs();
    forall a, b, link, mark | a == n || b == n ensures !Sequences(g', k, a, b, link, mark) {
      assert link == n || link !in g || (g[link].begin in g && g[link].end in g) || !IsConnector(g[link].ty);
      assert mark == n || mark !in g || g[mark].end in g || !IsConnector(g[mark].ty);
    }
  }

  // A common arc `c` from a to b that `q` puts into nrel_basic_sequence adds just that pair.
  lemma FollowsLinked(g: Graph, k: Keynodes, a: Addr, b: Addr, c: Addr, q: Addr, ty: ScType, x: Addr, y: Addr)
    requires Wf(g) && c !in g && q !in g && c != q && k.basicSequence in g && MembershipType(ty)
    ensures Follows(g[c := Arc(CONST_COMMON_ARC, a, b)][q := Arc(ty, k.basicSequence, c)], k, x, y)
            <==> Follows(g, k, x, y) || (x == a && y == b)
  {
    var g' := g[c := Arc(CONST_COMMON_ARC, a, b)][q := Arc(ty, k.basicSequence, c)];
    CommonArcs();
    assert Sequences(g', k, a, b, c, q);
    if Follows(g', k, x, y) {
      var link, mark :| Sequences(g', k, x, y, link, mark);
      assert link == c || mark in g;
      assert link == c || link == q || Sequences(g, k, x, y, link, mark);
    }
    if Follows(g, k, x, y) {
      var link, mark :| Sequences(g, k, x, y, link, mark);
      assert Sequences(g', k, x, y, link, mark);
    }
  }

  lemma SequencedAdd(g: Graph, k: Keynodes, arcs: seq<Addr>, n: Addr, el: Element)
    requires Wf(g) && n !in g && Sequenced(g, k, arcs) && el.end != n && el.begin != k.basicSequence
    ensures Sequenced(g[n := el], k, arcs)
  {
    forall a, b | a in arcs || b in arcs ensures Follows(g[n := el], k, a, b) <==> Adjacent(arcs, a, b) {
      FollowsAdd(g, k, a, b, n, el);
    }
  }

  // An arc `n` in no sequence yet, linked to the tail, follows the tail.
  lemma SequenceLinked(g: Graph, k: Keynodes, arcs: seq<Addr>, n: Addr, c: Addr, q: Addr, ty: ScType)
    requires Wf(g) && k.basicSequence in g && arcs != [] && Sequenced(g, k, arcs) && Sequenced(g, k, [n])
    requires c !in g && q !in g && c != q && MembershipType(ty)
    ensures Sequenced(
      g[c := Arc(CONST_COMMON_ARC, arcs[|arcs| - 1], n)][q := Arc(ty, k.basicSequence, c)], k, arcs + [n])
  {
    var last := arcs[|arcs| - 1];
    var g' := g[c := Arc(CONST_COMMON_ARC, last, n)][q := Arc(ty, k.basicSequence, c)];
    forall a, b | a in arcs + [n] || b in arcs + [n]
      ensures Follows(g', k, a, b) <==> Adjacent(arcs + [n], a, b)
    {
      AdjacentSnoc(arcs, n, a, b);
      FollowsLinked(g, k, last, n, c, q, ty, a, b);
      assert a in arcs || b in arcs || (a in [n] || b in [n]);
    }
  }

  lemma AdjacentSnoc(arcs: seq<Addr>, n: Addr, a: Addr, b: Addr)
    requires arcs != []
    ensures !Adjacent([n], a, b)
    ensures Adjacent(arcs + [n], a, b) <==> Adjacent(arcs, a, b) || (a == arcs[|arcs| - 1] && b == n)
  {
    var arcs' := arcs + [n];
    if Adjacent(arcs, a, b) {
      var i :| 0 <= i && i + 1 < |arcs| && a == arcs[i] && b == arcs[i + 1];
      assert a == arcs'[i] && b == arcs'[i + 1];
    }
    assert arcs'[|arcs| - 1] == arcs[|arcs| - 1] && arcs'[|arcs| - 1 + 1] == n;
  }

  // ---- Taking one member out ----

  function Without(arcs: seq<Addr>, i: nat): seq<Addr>
    requires i < |arcs|
  {
    arcs[..i] + arcs[i + 1..]
  }

  lemma MembersWithout(arcs: seq<Addr>, i: nat)
    requires i < |arcs| && Distinct(arcs)
    ensures Distinct(Without(arcs, i))
    ensures forall a :: a in Without(arcs, i) <==> a in arcs && a != arcs[i]
  {
    var rest := Without(arcs, i);
    forall a ensures a in rest <==> a in arcs && a != arcs[i] {
      if a in arcs && a != arcs[i] {
        var j :| 0 <= j < |arcs| && arcs[j] == a;
        assert rest[if j < i then j else j - 1] == a;
      }
      if a in rest {
        var j :| 0 <= j < |rest| && rest[j] == a;
        assert arcs[if j < i then j else j + 1] == a;
      }
    }
  }

  // Neighbours stay neighbours, and the two sides of the gap become neighbours.
  lemma AdjacentWithout(arcs: seq<Addr>, i: nat, a: Addr, b: Addr)
    requires i < |arcs| && Distinct(arcs)
    ensures Adjacent(Without(arcs, i), a, b) <==>
            || (Adjacent(arcs, a, b) && a != arcs[i] && b != arcs[i])
            || (0 < i && i + 1 < |arcs| && a == arcs[i - 1] && b == arcs[i + 1])
  {
    var rest := Without(arcs, i);
    if Adjacent(rest, a, b) {
      WithoutAdjacent(arcs, i, a, b);
    }
    if Adjacent(arcs, a, b) && a != arcs[i] && b != arcs[i] {
      var j :| 0 <= j && j + 1 < |arcs| && a == arcs[j] && b == arcs[j + 1];
      var at := if j < i then j else j - 1;
      assert a == rest[at] && b == rest[at + 1];
    }
    if 0 < i && i + 1 < |arcs| {
      assert arcs[i - 1] == rest[i - 1] && arcs[i + 1] == rest[i - 1 + 1];
    }
  }

  lemma WithoutAdjacent(arcs: seq<Addr>, i: nat, a: Addr, b: Addr)
    requires i < |arcs| && Distinct(arcs) && Adjacent(Without(arcs, i), a, b)
    ensures || (Adjacent(arcs, a, b) && a != arcs[i] && b != arcs[i])
            || (0 < i && i + 1 < |arcs| && a == arcs[i - 1] && b == arcs[i + 1])
  {
    var rest := Without(arcs, i);
    var j :| 0 <= j && j + 1 < |rest| && a == rest[j] && b == rest[j + 1];
    if j + 1 != i {
      var at := if j < i then j else j + 1;
      assert a == arcs[at] && b == arcs[at + 1];
    }
  }

  // No other arc of the set, nor the set, hangs on this one.
  ghost predicate Loose(g: Graph, k: Keynodes, s: Addr, arcs: seq<Addr>, x: Addr) {
    s !in arcs && Cascade(g, {x}) * (Members(arcs) + {s} + k.All()) == {x}
  }

  lemma TakenOut(g: Graph, k: Keynodes, s: Addr, arcs: seq<Addr>, i: nat)
    requires Ready(g, k) && s !in k.All() && HasMembers(g, s, arcs) && Sequenced(g, k, arcs)
    requires i < |arcs| && Loose(g, k, s, arcs, arcs[i])
    ensures HasMembers(Del(g, {arcs[i]}), s, Without(arcs, i))
    ensures forall a, b :: a in Without(arcs, i) || b in Without(arcs, i) ==>
              (Follows(Del(g, {arcs[i]}), k, a, b) <==> Adjacent(arcs, a, b) && a != arcs[i] && b != arcs[i])
  {
    var x, rest := arcs[i], Without(arcs, i);
    var g' := Del(g, {x});
    MembersWithout(arcs, i);
    CascadeClosed(g, {x});
    assert IsMember(g, s, x);
    forall a ensures a in rest <==> IsMember(g', s, a) {
      assert a in arcs ==> a in Members(arcs);
    }
    forall a, b | a in rest || b in rest
      ensures Follows(g', k, a, b) <==> Adjacent(arcs, a, b) && a != x && b != x
    {
      if Adjacent(arcs, a, b) && a != x && b != x {
        var ours := Members(arcs) + {s} + k.All();
        assert a in ours && b in ours && k.All() <= ours;
        assert x !in k.All() by { CommonArcs(); }
        assert Cascade(g, {x}) !! {a, b} + k.All() by {
          assert forall y <- {a, b} + k.All() :: y !in Cascade(g, {x}) * ours;
        }
        FollowsAfterDel(g, k, x, a, b);
      } else if Follows(g', k, a, b) {
        var link, mark :| Sequences(g', k, a, b, link, mark);
        assert Sequences(g, k, a, b, link, mark);
        assert Follows(g, k, a, b);
      }
    }
  }

  // The marks of the removed arc go with it.
  lemma MarksTakenOut(g: Graph, role: Addr, arcs: seq<Addr>, i: nat)
    requires Wf(g) && i < |arcs| && Distinct(arcs) && OnlyMark(g, role, arcs, arcs[i])
    ensures Unmarked(Del(g, {arcs[i]}), role, Without(arcs, i))
  {
    MembersWithout(arcs, i);
    assert forall m, y :: Marks(Del(g, {arcs[i]}), m, role, y) ==> Marks(g, m, role, y);
  }

  lemma Mark(g: Graph, role: Addr, arcs: seq<Addr>, a: Addr, m: Addr, ty: ScType)
    requires Unmarked(g, role, arcs) && m !in g && MembershipType(ty)
    ensures OnlyMark(g[m := Arc(ty, role, a)], role, arcs, a)
  {
    var g' := g[m := Arc(ty, role, a)];
    assert Marks(g', m, role, a);
    assert forall other, x :: x in arcs && Marks(g', other, role, x) ==> other == m || Marks(g, other, role, x);
  }
}
