// The preparation of a search in sc_template_search.cpp: which triples depend on which, whether
// their dependencies run in a cycle, and how they fall into connected components.
module TemplateSearch {
  import opened ScGraph
  import opened ScText
  import opened ScTypes
  import opened TemplateItems

  // ---- Keys ----

  // `GetKey`: the name of the item and the index of its triple.
  function Key(name: string, triple: nat): string {
    name + "_" + Decimal(triple)
  }

  // The index holds no '_', so the last one separates name and index.
  lemma KeyInjective(name: string, triple: nat, name': string, triple': nat)
    requires Key(name, triple) == Key(name', triple')
    ensures name == name' && triple == triple'
  {
    var key, d, d' := Key(name, triple), Decimal(triple), Decimal(triple');
    SameTail(key, name, d, name', d');
    SameTail(key, name', d', name, d);
    assert d == key[|key| - |d|..] && d' == key[|key| - |d|..];
    DecimalInjective(triple, triple');
    assert name == key[..|key| - |d| - 1];
  }

  lemma SameTail(key: string, name: string, d: string, name': string, d': string)
    requires key == name + "_" + d == name' + "_" + d' && AllDigits(d) && AllDigits(d')
    ensures |d| >= |d'|
  {
    forall at | |key| - |d'| <= at < |key| ensures key[at] != '_' {
      assert key[at] == d'[at - |key| + |d'|] && d'[at - |key| + |d'|] in d';
    }
    assert key[|key| - |d| - 1] == '_';
  }

  // ---- Sharing ----

  function NameAt(items: seq<Item>, triple: nat, j: nat): string
    requires j < 3 && 3 * triple + 3 <= |items|
  {
    items[3 * triple + j].name
  }

  predicate HasName(items: seq<Item>, triple: nat, name: string)
    requires 3 * triple + 3 <= |items|
  {
    name == NameAt(items, triple, 0) || name == NameAt(items, triple, 1) || name == NameAt(items, triple, 2)
  }

  // The other triples that have an item of this name.
  function Sharers(items: seq<Item>, triple: nat, name: string, bound: nat): set<nat>
    requires 3 * bound <= |items|
  {
    if name == "" then {} else set o | 0 <= o < bound && o != triple && HasName(items, o, name)
  }

  type Dependents = map<string, set<nat>>

  // `FindDependedTriple`
  function Dependent(dependents: Dependents, name: string, triple: nat): set<nat> {
    if name != "" && Key(name, triple) in dependents then dependents[Key(name, triple)] else {}
  }

  // The dependencies recorded for every named item are exactly the triples that share its name.
  ghost predicate SetUp(items: seq<Item>, dependents: Dependents) {
    forall t: nat, j: nat :: j < 3 && t < |items| / 3 ==>
      Dependent(dependents, NameAt(items, t, j), t) == Sharers(items, t, NameAt(items, t, j), |items| / 3)
  }

  // Two triples are adjacent when they share a name that is not empty.
  predicate Adjacent(items: seq<Item>, a: nat, b: nat)
    requires 3 * a + 3 <= |items| && 3 * b + 3 <= |items|
  {
    a != b && exists j | 0 <= j < 3 :: NameAt(items, a, j) != "" && HasName(items, b, NameAt(items, a, j))
  }

  lemma AdjacentSymmetric(items: seq<Item>, a: nat, b: nat)
    requires 3 * a + 3 <= |items| && 3 * b + 3 <= |items|
    ensures Adjacent(items, a, b) <==> Adjacent(items, b, a)
  {
  }

  // While triple `t` is compared with the triples below `o`.
  ghost predicate SettingUp(items: seq<Item>, dependents: Dependents, t: nat, o: nat)
    requires 3 * o <= |items|
  {
    forall name: string, u: nat :: name != "" ==>
      Dependent(dependents, name, u) ==
      if u < t && 3 * u + 3 <= |items| && HasName(items, u, name) then Sharers(items, u, name, |items| / 3)
      else if u == t && 3 * u + 3 <= |items| && HasName(items, u, name) then Sharers(items, u, name, o)
      else {}
  }

  // The triple `o` is recorded under the name of item `j` of `t`, if it shares that name.
  ghost predicate Records(items: seq<Item>, before: Dependents, after: Dependents, t: nat, j: nat, o: nat)
    requires j < 3 && t < |items| / 3 && o < |items| / 3
  {
    forall name: string, u: nat :: name != "" ==>
      Dependent(after, name, u) ==
      Dependent(before, name, u) + Recorded(items, t, j, o, name, u)
  }

  function Recorded(items: seq<Item>, t: nat, j: nat, o: nat, name: string, u: nat): set<nat>
    requires j < 3 && t < |items| / 3 && o < |items| / 3
  {
    if u == t && name == NameAt(items, t, j) && t != o && HasName(items, o, name) then {o} else {}
  }

  // The comparison of names and of addresses that keeps the search from going on from an item.
  predicate Blocked(item: Item, previous: Item) {
    (item.name != "" && item.name == previous.name) || (item.addr != EMPTY && item.addr == previous.addr)
  }

  class ScTemplateSearch {
    const items: seq<Item>
    var dependents: Dependents
    var components: seq<set<nat>>

    constructor (items: seq<Item>)
      requires |items| % 3 == 0
      ensures this.items == items && dependents == map[] && components == []
    {
      this.items, dependents, components := items, map[], [];
    }

    method SetUpDependenciesBetweenTriples()
      requires dependents == map[] && |items| % 3 == 0
      modifies this
      ensures SetUp(items, dependents) && components == old(components)
    {
      var t := 0;
      while t < |items| / 3
        invariant 0 <= t <= |items| / 3 && components == old(components)
        invariant SettingUp(items, dependents, t, 0)
      {
        var o := 0;
        while o < |items| / 3
          invariant 0 <= o <= |items| / 3 && components == old(components)
          invariant SettingUp(items, dependents, t, o)
        {
          CompareTriples(t, o);
          o := o + 1;
        }
        NextTriple(items, dependents, t);
        t := t + 1;
      }
    }

    method CompareTriples(t: nat, o: nat)
      requires t < |items| / 3 && o < |items| / 3 && SettingUp(items, dependents, t, o)
      modifies this
      ensures SettingUp(items, dependents, t, o + 1) && components == old(components)
    {
      ghost var none := dependents;
      TryAddDependence(t, 0, o);
      ghost var one := dependents;
      TryAddDependence(t, 1, o);
      ghost var two := dependents;
      TryAddDependence(t, 2, o);
      Compared(items, none, one, two, dependents, t, o);
    }

    method TryAddDependence(t: nat, j: nat, o: nat)
      requires j < 3 && t < |items| / 3 && o < |items| / 3
      modifies this
      ensures components == old(components) && Records(items, old(dependents), dependents, t, j, o)
    {
      var name := NameAt(items, t, j);
      if t == o || name == "" || !HasName(items, o, name) {
        return;
      }
      var key := Key(name, t);
      forall name': string, u: nat | name' != "" && Key(name', u) == key ensures name' == name && u == t {
        KeyInjective(name', u, name, t);
      }
      dependents := dependents[key := (if key in dependents then dependents[key] else {}) + {o}];
    }

    // Triples are passed by index, sets by reference in the source are passed in and out here.
    method FindConnectivityComponents()
      requires |items| % 3 == 0 && SetUp(items, dependents) && components == []
      modifies this`components
      ensures Partition(items, components)
    {
      var checked := {};
      var t := 0;
      while t < |items| / 3
        invariant 0 <= t <= |items| / 3 && |components| == t
        invariant Explored(items, components, checked)
      {
        var component;
        ghost var before := checked;
        checked, component := FindConnectivityComponent(t, checked);
        ExploredStep(items, components, before, checked, component);
        components := components + [component];
        t := t + 1;
      }
      ExploredAll(items, components, checked);
    }

    method FindConnectivityComponent(t: nat, checked: set<nat>) returns (after: set<nat>, component: set<nat>)
      requires SetUp(items, dependents) && t < |items| / 3 && checked <= Triples(items)
      ensures t in checked ==> after == checked && component == {}
      ensures t !in checked ==> component == {t} + (after - checked) && Searched(items, t, 3, checked, after)
    {
      after, component := checked, {};
      if t in checked {
        return;
      }
      after, component := SearchItems(t, checked, {t});
    }

    // All items of a triple in turn.
    method SearchItems(t: nat, checked: set<nat>, component: set<nat>) returns (after: set<nat>, grown: set<nat>)
      requires SetUp(items, dependents) && t < |items| / 3 && checked <= Triples(items)
      ensures Searched(items, t, 3, checked, after) && grown == component + (after - checked)
      decreases Triples(items) - checked, 1
    {
      SearchedNone(items, t, checked);
      after, grown := FindConnectivityComponentByItem(t, 0, checked, component);
      SearchedJoin(items, t, 0, checked, checked, after);
      ghost var first := after;
      after, grown := FindConnectivityComponentByItem(t, 1, after, grown);
      SearchedJoin(items, t, 1, checked, first, after);
      ghost var second := after;
      after, grown := FindConnectivityComponentByItem(t, 2, after, grown);
      SearchedJoin(items, t, 2, checked, second, after);
    }

    method FindConnectivityComponentByItem(t: nat, j: nat, checked: set<nat>, component: set<nat>)
      returns (after: set<nat>, grown: set<nat>)
      requires SetUp(items, dependents) && t < |items| / 3 && j < 3 && checked <= Triples(items)
      ensures checked <= after <= Triples(items) && grown == component + (after - checked)
      ensures SearchedItem(items, t, j, checked, after)
      decreases Triples(items) - checked, 0
    {
      var next := Dependent(dependents, NameAt(items, t, j), t);
      after, grown := checked, component;
      var left := next;
      while left != {}
        invariant left <= next && checked <= after <= Triples(items) && grown == component + (after - checked)
        invariant next - left <= after && FoundBelow(items, t, checked, after)
        decreases left
      {
        var o :| o in left;
        left := left - {o};
        assert Adjacent(items, t, o);
        if o !in after {
          ghost var before := after;
          ghost var marked := after + {o};
          after, grown := SearchItems(o, after + {o}, grown + {o});
          FoundMore(items, t, o, checked, before, marked, after);
        }
      }
    }

    // Walks from item `j` of triple `t` along shared names and looks for a way back to the triple
    // `start` by another name than that of its first item. Every branch works on a copy of the
    // triples checked so far and marks one more before it goes deeper, so the search ends on every
    // template. It finds a way back exactly when there is one that passes no checked triple and no
    // triple twice, whatever siblings were checked before it, in whatever order.
    method FindCycleWithFAATriple(t: nat, j: nat, start: nat, checked: set<nat>, isFound: bool) returns (found: bool)
      requires SetUp(items, dependents) && t < |items| / 3 && j < 3 && start < |items| / 3
      requires checked <= Triples(items) && (t in checked || t == start)
      ensures isFound ==> found
      ensures found && !isFound ==> Returns(items, t, j, start, checked)
      ensures !found && OneNamePerAddress(items) && (t in checked || j == 0) ==> !Returns(items, t, j, start, checked)
      decreases Triples(items) - checked, 0
    {
      found := isFound;
      if found {
        return;
      }
      ghost var guide, twin := Guide(items, t, j, start, checked);
      var seen := checked;
      var left := Dependent(dependents, NameAt(items, t, j), t);
      ghost var next := left;
      while left != {}
        invariant left <= next && checked <= seen <= checked + next && seen * left <= checked
        invariant found ==> Returns(items, t, j, start, checked)
        invariant guide != [] && !found ==> Ahead(guide, twin, start, left)
        decreases left
      {
        var o :| o in left;
        ghost var before := left;
        left := left - {o};
        if (o == start && NameAt(items, t, j) != NameAt(items, start, 0)) || found {
          if !found {
            AtOnce(items, t, j, start, checked);
          }
          return true;
        }
        if o !in seen {
          seen := seen + {o};
          ghost var rest := RestOfGuide(items, guide, twin, t, j, start, checked, before, seen, o);
          found := SearchTriple(t, j, o, start, checked, seen, found, rest);
        } else if guide != [] {
          StillAhead(items, guide, twin, t, j, start, checked, before, o);
        }
      }
    }

    // The items of the triple `o`, which was reached by item `j` of `t`.
    method SearchTriple(
        t: nat, j: nat, o: nat, start: nat, ghost checked: set<nat>, seen: set<nat>, isFound: bool,
        ghost guide: seq<(nat, nat)>)
      returns (found: bool)
      requires SetUp(items, dependents) && t < |items| / 3 && j < 3 && start < |items| / 3
      requires checked + {o} <= seen <= Triples(items) && o !in checked && WalkStep(items, (t, j), o)
      requires isFound ==> Returns(items, t, j, start, checked)
      requires guide != [] ==> Continues(items, guide, t, j, o, start, seen)
      ensures isFound ==> found
      ensures found ==> Returns(items, t, j, start, checked)
      ensures guide != [] ==> found
      decreases Triples(items) - seen, 2
    {
      found := isFound;
      var k := 0;
      while k < 3
        invariant 0 <= k <= 3 && (isFound ==> found)
        invariant found ==> Returns(items, t, j, start, checked)
        invariant guide != [] && guide[0].1 < k ==> found
        decreases 3 - k
      {
        if guide != [] && guide[0].1 == k {
          GuideIsOpen(items, guide, t, j, o, start, seen);
        }
        found := SearchItem(t, j, o, k, start, checked, seen, found);
        k := k + 1;
      }
    }

    // Goes on from one item, unless it has the name or the address of the item before.
    method SearchItem(
        t: nat, j: nat, o: nat, k: nat, start: nat, ghost checked: set<nat>, seen: set<nat>, isFound: bool)
      returns (found: bool)
      requires SetUp(items, dependents) && t < |items| / 3 && j < 3 && start < |items| / 3 && k < 3
      requires checked + {o} <= seen <= Triples(items) && o !in checked && WalkStep(items, (t, j), o)
      requires isFound ==> Returns(items, t, j, start, checked)
      ensures isFound ==> found
      ensures found ==> Returns(items, t, j, start, checked)
      ensures OneNamePerAddress(items) && Open(items, t, j, o, k, start, seen) ==> found
      decreases Triples(items) - seen, 1
    {
      found := isFound;
      var item, previous := items[3 * o + k], items[3 * t + j];
      if !Blocked(item, previous) {
        found := FindCycleWithFAATriple(o, k, start, seen, isFound);
        if found && !isFound {
          ReturnsFurther(items, o, k, t, j, start, checked, seen);
        }
      }
    }

    // The call for a triple that may be in a cycle.
    method IsCycled(start: nat) returns (found: bool)
      requires SetUp(items, dependents) && start < |items| / 3
      ensures found ==> Returns(items, start, 0, start, {})
      ensures OneNamePerAddress(items) ==> (found <==> Returns(items, start, 0, start, {}))
    {
      found := FindCycleWithFAATriple(start, 0, start, {}, false);
    }
  }

  lemma OneMoreSharer(items: seq<Item>, t: nat, name: string, o: nat)
    requires 3 * o + 3 <= |items| && t < |items| / 3 && name != "" && HasName(items, t, name)
    ensures Sharers(items, t, name, o + 1) ==
            Sharers(items, t, name, o)
            + (Recorded(items, t, 0, o, name, t) + Recorded(items, t, 1, o, name, t)
               + Recorded(items, t, 2, o, name, t))
  {
  }

  lemma NothingRecorded(items: seq<Item>, t: nat, name: string, u: nat, o: nat)
    requires t < |items| / 3 && o < |items| / 3 && !(u == t && HasName(items, t, name))
    ensures Recorded(items, t, 0, o, name, u) + Recorded(items, t, 1, o, name, u) + Recorded(items, t, 2, o, name, u)
            == {}
  {
  }

  lemma ThreeRecords(a: set<nat>, b: set<nat>, c: set<nat>, d: set<nat>, p: set<nat>, q: set<nat>, r: set<nat>)
    requires b == a + p && c == b + q && d == c + r
    ensures d == a + (p + q + r)
  {
  }

  lemma Compared(
      items: seq<Item>, none: Dependents, one: Dependents, two: Dependents, all: Dependents, t: nat, o: nat)
    requires t < |items| / 3 && o < |items| / 3 && SettingUp(items, none, t, o)
    requires Records(items, none, one, t, 0, o) && Records(items, one, two, t, 1, o)
    requires Records(items, two, all, t, 2, o)
    ensures SettingUp(items, all, t, o + 1)
  {
    forall name: string, u: nat | name != ""
      ensures Dependent(all, name, u) ==
              if u < t && 3 * u + 3 <= |items| && HasName(items, u, name) then Sharers(items, u, name, |items| / 3)
              else if u == t && 3 * u + 3 <= |items| && HasName(items, u, name) then Sharers(items, u, name, o + 1)
              else {}
    {
      ThreeRecords(
        Dependent(none, name, u), Dependent(one, name, u), Dependent(two, name, u), Dependent(all, name, u),
        Recorded(items, t, 0, o, name, u), Recorded(items, t, 1, o, name, u), Recorded(items, t, 2, o, name, u));
      if u == t && HasName(items, t, name) {
        OneMoreSharer(items, t, name, o);
      } else {
        NothingRecorded(items, t, name, u, o);
      }
    }
  }

  lemma NextTriple(items: seq<Item>, dependents: Dependents, t: nat)
    requires t < |items| / 3 && SettingUp(items, dependents, t, |items| / 3)
    ensures SettingUp(items, dependents, t + 1, 0)
  {
    forall name: string, u: nat | name != ""
      ensures Dependent(dependents, name, u) ==
              if u < t + 1 && 3 * u + 3 <= |items| && HasName(items, u, name) then Sharers(items, u, name, |items| / 3)
              else if u == t + 1 && 3 * u + 3 <= |items| && HasName(items, u, name) then Sharers(items, u, name, 0)
              else {}
    {
    }
  }

  // ---- Cycles ----

  ghost predicate WalkStep(items: seq<Item>, from: (nat, nat), to: nat) {
    && from.0 < |items| / 3 && from.1 < 3
    && to in Sharers(items, from.0, NameAt(items, from.0, from.1), |items| / 3)
  }

  // Items of triples, each of a triple that shares the name of the item before, under another name
  // than that; the last one leads to `start` by another name than that of its first item.
  ghost predicate ReturnWalk(items: seq<Item>, walk: seq<(nat, nat)>, t: nat, j: nat, start: nat)
    requires start < |items| / 3
  {
    && walk != [] && walk[0] == (t, j)
    && (forall i: nat, k: nat :: k == i + 1 && k < |walk| ==> WalkStep(items, walk[i], walk[k].0))
    && (forall i: nat, k: nat :: k == i + 1 && k < |walk| ==> OtherName(items, walk[i], walk[k]))
    && WalkStep(items, walk[|walk| - 1], start)
    && NameAt(items, walk[|walk| - 1].0, walk[|walk| - 1].1) != NameAt(items, start, 0)
  }

  ghost predicate OtherName(items: seq<Item>, a: (nat, nat), b: (nat, nat)) {
    && a.0 < |items| / 3 && a.1 < 3 && b.0 < |items| / 3 && b.1 < 3
    && NameAt(items, a.0, a.1) != NameAt(items, b.0, b.1)
  }

  lemma LongerWalk(items: seq<Item>, walk: seq<(nat, nat)>, o: nat, k: nat, t: nat, j: nat, start: nat)
    requires start < |items| / 3 && ReturnWalk(items, walk, o, k, start)
    requires t < |items| / 3 && j < 3 && WalkStep(items, (t, j), o) && OtherName(items, (t, j), (o, k))
    ensures ReturnWalk(items, [(t, j)] + walk, t, j, start)
  {
    var longer := [(t, j)] + walk;
    forall i: nat, l: nat | l == i + 1 && l < |longer|
      ensures WalkStep(items, longer[i], longer[l].0) && OtherName(items, longer[i], longer[l])
    {
      if i > 0 {
        assert longer[i] == walk[i - 1] && longer[l] == walk[i];
      }
    }
  }

  // No triple is passed twice after the first item.
  ghost predicate Simple(walk: seq<(nat, nat)>) {
    forall i: nat, k: nat :: 0 < i < k < |walk| ==> walk[i].0 != walk[k].0
  }

  // A way back that meets none of the triples to avoid, and none twice if it has to be simple.
  ghost predicate Leads(
      items: seq<Item>, walk: seq<(nat, nat)>, t: nat, j: nat, start: nat, avoid: set<nat>, simple: bool)
    requires start < |items| / 3
  {
    && ReturnWalk(items, walk, t, j, start)
    && (forall i: nat :: 0 < i < |walk| ==> walk[i].0 !in avoid)
    && (simple ==> Simple(walk))
  }

  ghost predicate Returns(items: seq<Item>, t: nat, j: nat, start: nat, checked: set<nat>)
    requires start < |items| / 3
  {
    exists walk :: Leads(items, walk, t, j, start, checked, true)
  }

  lemma AtOnce(items: seq<Item>, t: nat, j: nat, start: nat, checked: set<nat>)
    requires start < |items| / 3 && t < |items| / 3 && j < 3
    requires WalkStep(items, (t, j), start) && NameAt(items, t, j) != NameAt(items, start, 0)
    ensures Returns(items, t, j, start, checked)
  {
    assert Leads(items, [(t, j)], t, j, start, checked, true);
  }

  lemma LongerWay(
      items: seq<Item>, walk: seq<(nat, nat)>, o: nat, k: nat, t: nat, j: nat, start: nat, avoid: set<nat>,
      more: set<nat>, simple: bool)
    requires start < |items| / 3 && Leads(items, walk, o, k, start, more, simple)
    requires avoid <= more && o !in avoid && (simple ==> o in more)
    requires t < |items| / 3 && j < 3 && WalkStep(items, (t, j), o) && OtherName(items, (t, j), (o, k))
    ensures Leads(items, [(t, j)] + walk, t, j, start, avoid, simple)
  {
    LongerWalk(items, walk, o, k, t, j, start);
  }

  lemma ReturnsFurther(
      items: seq<Item>, o: nat, k: nat, t: nat, j: nat, start: nat, checked: set<nat>, seen: set<nat>)
    requires start < |items| / 3 && Returns(items, o, k, start, seen) && checked + {o} <= seen && o !in checked
    requires t < |items| / 3 && j < 3 && o < |items| / 3 && k < 3
    requires WalkStep(items, (t, j), o) && (NameAt(items, o, k) == "" || OtherName(items, (t, j), (o, k)))
    ensures Returns(items, t, j, start, checked)
  {
    var walk: seq<(nat, nat)> :| Leads(items, walk, o, k, start, seen, true);
    assert NameAt(items, o, k) != "" by {
      assert WalkStep(items, walk[0], if |walk| > 1 then walk[1].0 else start);
    }
    LongerWay(items, walk, o, k, t, j, start, checked, seen, true);
  }

  // Items of one address have one name, so that the comparison of addresses adds nothing to that of
  // names.
  ghost predicate OneNamePerAddress(items: seq<Item>) {
    forall p: nat, q: nat :: p < |items| && q < |items| && items[p].addr == items[q].addr != EMPTY ==>
      items[p].name == items[q].name
  }

  ghost predicate IsShortest(
      items: seq<Item>, walk: seq<(nat, nat)>, t: nat, j: nat, start: nat, avoid: set<nat>, simple: bool)
    requires start < |items| / 3
  {
    Leads(items, walk, t, j, start, avoid, simple)
    && forall other :: Leads(items, other, t, j, start, avoid, simple) ==> |walk| <= |other|
  }

  ghost function SecondOf(walk: seq<(nat, nat)>, start: nat): nat {
    if |walk| > 1 then walk[1].0 else start
  }

  lemma {:induction false} Shorten(
      items: seq<Item>, walk: seq<(nat, nat)>, t: nat, j: nat, start: nat, avoid: set<nat>, simple: bool)
    returns (least: seq<(nat, nat)>)
    requires start < |items| / 3 && Leads(items, walk, t, j, start, avoid, simple)
    ensures IsShortest(items, least, t, j, start, avoid, simple)
    decreases |walk|
  {
    if other :| Leads(items, other, t, j, start, avoid, simple) && |other| < |walk| {
      least := Shorten(items, other, t, j, start, avoid, simple);
    } else {
      least := walk;
    }
  }

  lemma Suffix(
      items: seq<Item>, walk: seq<(nat, nat)>, i: nat, t: nat, j: nat, start: nat, avoid: set<nat>, simple: bool)
    requires start < |items| / 3 && Leads(items, walk, t, j, start, avoid, simple) && i < |walk|
    ensures Leads(items, walk[i..], walk[i].0, walk[i].1, start, avoid, simple)
  {
    var rest := walk[i..];
    forall a: nat, b: nat | b == a + 1 && b < |rest|
      ensures WalkStep(items, rest[a], rest[b].0) && OtherName(items, rest[a], rest[b])
    {
      assert rest[a] == walk[i + a] && rest[b] == walk[i + b];
    }
  }

  lemma Shortcut(
      items: seq<Item>, walk: seq<(nat, nat)>, i: nat, t: nat, j: nat, start: nat, avoid: set<nat>, simple: bool)
    requires start < |items| / 3 && t < |items| / 3 && j < 3 && Leads(items, walk, t, j, start, avoid, simple)
    requires 1 <= i < |walk| && WalkStep(items, (t, j), walk[i].0) && OtherName(items, (t, j), walk[i])
    ensures Leads(items, [(t, j)] + walk[i..], t, j, start, avoid, simple)
  {
    Suffix(items, walk, i, t, j, start, avoid, simple);
    LongerWalk(items, walk[i..], walk[i].0, walk[i].1, t, j, start);
  }

  // The walk comes to a neighbour of its beginning by the name they share and turns to `start`.
  ghost predicate Turns(items: seq<Item>, walk: seq<(nat, nat)>, name: string, start: nat, i: nat)
    requires i < |walk|
  {
    && walk[i].0 < |items| / 3 && walk[i].1 < 3 && NameAt(items, walk[i].0, walk[i].1) == name
    && (i + 1 < |walk| ==> walk[i + 1].0 == start)
  }

  // A shortest way back goes through no neighbour of its beginning later on, as from there it could
  // have been shorter; unless it begins at `start` and turns there.
  lemma NoSiblingLater(
      items: seq<Item>, walk: seq<(nat, nat)>, t: nat, j: nat, start: nat, avoid: set<nat>, simple: bool, i: nat)
    requires start < |items| / 3 && t < |items| / 3 && j < 3 && IsShortest(items, walk, t, j, start, avoid, simple)
    requires (t in avoid || t == start) && 2 <= i < |walk|
    ensures walk[i].0 in Sharers(items, t, NameAt(items, t, j), |items| / 3) ==>
              t == start && Turns(items, walk, NameAt(items, t, j), start, i)
  {
    var n := NameAt(items, t, j);
    if walk[i].0 in Sharers(items, t, n, |items| / 3) {
      assert OtherName(items, walk[i - 1], walk[i]);
      if NameAt(items, walk[i].0, walk[i].1) != n {
        Shortcut(items, walk, i, t, j, start, avoid, simple);
      } else if i + 1 < |walk| {
        assert OtherName(items, walk[i], walk[i + 1]);
        assert WalkStep(items, walk[i], walk[i + 1].0);
        if walk[i + 1].0 != t {
          Shortcut(items, walk, i + 1, t, j, start, avoid, simple);
        }
      } else if t != start {
        assert Leads(items, [(t, j)], t, j, start, avoid, simple);
      }
    }
  }

  // It does so once.
  lemma OneTurn(
      items: seq<Item>, walk: seq<(nat, nat)>, t: nat, j: nat, start: nat, avoid: set<nat>, i: nat, k: nat)
    requires start < |items| / 3 && t < |items| / 3 && j < 3 && Leads(items, walk, t, j, start, avoid, true)
    requires t == start && (t in avoid || j == 0) && i < |walk| && k < |walk|
    requires Turns(items, walk, NameAt(items, t, j), start, i) && Turns(items, walk, NameAt(items, t, j), start, k)
    ensures i == k
  {
    assert i + 1 < |walk| && k + 1 < |walk| && walk[i + 1].0 == walk[k + 1].0 ==> i == k;
  }

  // ---- A walk turned round ----

  function ItemNamed(items: seq<Item>, triple: nat, name: string): (k: nat)
    requires 3 * triple + 3 <= |items| && HasName(items, triple, name)
    ensures k < 3 && NameAt(items, triple, k) == name
  {
    if NameAt(items, triple, 0) == name then 0 else if NameAt(items, triple, 1) == name then 1 else 2
  }

  // Every triple of a walk has the name of the item before.
  ghost predicate Enterable(items: seq<Item>, walk: seq<(nat, nat)>) {
    && (forall i: nat :: i < |walk| ==> walk[i].0 < |items| / 3 && walk[i].1 < 3)
    && forall i: nat, k: nat :: k == i + 1 && k < |walk| ==>
         HasName(items, walk[k].0, NameAt(items, walk[i].0, walk[i].1))
  }

  lemma WalkIsEnterable(items: seq<Item>, walk: seq<(nat, nat)>, t: nat, j: nat, start: nat)
    requires start < |items| / 3 && ReturnWalk(items, walk, t, j, start)
    ensures Enterable(items, walk)
  {
    forall i: nat | i < |walk| ensures walk[i].0 < |items| / 3 && walk[i].1 < 3 {
      if i + 1 < |walk| {
        assert WalkStep(items, walk[i], walk[i + 1].0);
      }
    }
    forall i: nat, k: nat | k == i + 1 && k < |walk|
      ensures HasName(items, walk[k].0, NameAt(items, walk[i].0, walk[i].1))
    {
      assert WalkStep(items, walk[i], walk[k].0);
    }
  }

  // The item by which the walk turned round leaves the triple it has at position `k` of the old one.
  ghost function BackItem(items: seq<Item>, walk: seq<(nat, nat)>, k: nat): (item: (nat, nat))
    requires Enterable(items, walk) && 0 < k < |walk|
    ensures item.0 == walk[k].0 < |items| / 3 && item.1 < 3
    ensures NameAt(items, item.0, item.1) == NameAt(items, walk[k - 1].0, walk[k - 1].1)
  {
    var before := walk[k - 1];
    assert HasName(items, walk[k].0, NameAt(items, before.0, before.1));
    (walk[k].0, ItemNamed(items, walk[k].0, NameAt(items, before.0, before.1)))
  }

  ghost function TurnedAt(items: seq<Item>, walk: seq<(nat, nat)>, i: nat, m: nat): (item: (nat, nat))
    requires Enterable(items, walk) && 0 < i < |walk| && m < |walk|
    ensures item.0 == walk[if 0 < m <= i then i + 1 - m else m].0
  {
    if 0 < m <= i then BackItem(items, walk, i + 1 - m) else walk[m]
  }

  ghost function TurnedRound(items: seq<Item>, walk: seq<(nat, nat)>, i: nat): (turned: seq<(nat, nat)>)
    requires Enterable(items, walk) && 0 < i < |walk|
    ensures |turned| == |walk| && forall m: nat :: m < |walk| ==> turned[m] == TurnedAt(items, walk, i, m)
  {
    seq(|walk|, m requires 0 <= m < |walk| => TurnedAt(items, walk, i, m))
  }

  lemma BackStep(items: seq<Item>, walk: seq<(nat, nat)>, t: nat, j: nat, start: nat, k: nat)
    requires start < |items| / 3 && ReturnWalk(items, walk, t, j, start) && Enterable(items, walk) && 0 < k < |walk|
    ensures WalkStep(items, BackItem(items, walk, k), walk[k - 1].0)
    ensures k > 1 ==> OtherName(items, BackItem(items, walk, k), BackItem(items, walk, k - 1))
  {
    assert WalkStep(items, walk[k - 1], walk[k].0);
    if k > 1 {
      assert OtherName(items, walk[k - 2], walk[k - 1]);
    }
  }

  // The step at position `a` of the walk turned round at `i`.
  ghost predicate GoodStep(items: seq<Item>, walk: seq<(nat, nat)>, i: nat, a: nat)
    requires Enterable(items, walk) && 0 < i < |walk| && a + 1 < |walk|
  {
    && WalkStep(items, TurnedAt(items, walk, i, a), TurnedAt(items, walk, i, a + 1).0)
    && OtherName(items, TurnedAt(items, walk, i, a), TurnedAt(items, walk, i, a + 1))
  }

  lemma TurnedFirst(items: seq<Item>, walk: seq<(nat, nat)>, t: nat, j: nat, start: nat, i: nat)
    requires start < |items| / 3 && t < |items| / 3 && j < 3 && ReturnWalk(items, walk, t, j, start)
    requires Enterable(items, walk)
    requires t == start && 2 <= i < |walk| && Turns(items, walk, NameAt(items, t, j), start, i)
    requires walk[i].0 in Sharers(items, t, NameAt(items, t, j), |items| / 3)
    ensures GoodStep(items, walk, i, 0)
  {
    assert OtherName(items, walk[i - 1], walk[i]);
  }

  lemma TurnedBack(items: seq<Item>, walk: seq<(nat, nat)>, t: nat, j: nat, start: nat, i: nat, a: nat)
    requires start < |items| / 3 && ReturnWalk(items, walk, t, j, start) && Enterable(items, walk)
    requires 0 < a < i < |walk|
    ensures GoodStep(items, walk, i, a)
  {
    BackStep(items, walk, t, j, start, i + 1 - a);
  }

  // Behind the turn the names are those of the first two items again.
  lemma TurnedOut(items: seq<Item>, walk: seq<(nat, nat)>, t: nat, j: nat, start: nat, i: nat)
    requires start < |items| / 3 && t < |items| / 3 && j < 3 && ReturnWalk(items, walk, t, j, start)
    requires Enterable(items, walk)
    requires t == start && 2 <= i && i + 1 < |walk| && Turns(items, walk, NameAt(items, t, j), start, i)
    ensures GoodStep(items, walk, i, i)
  {
    BackStep(items, walk, t, j, start, 1);
    assert OtherName(items, walk[i], walk[i + 1]);
    assert WalkStep(items, walk[i], walk[i + 1].0);
  }

  lemma TurnedOn(items: seq<Item>, walk: seq<(nat, nat)>, t: nat, j: nat, start: nat, i: nat, a: nat)
    requires start < |items| / 3 && ReturnWalk(items, walk, t, j, start) && Enterable(items, walk)
    requires 0 < i < a && a + 1 < |walk|
    ensures GoodStep(items, walk, i, a)
  {
    assert OtherName(items, walk[a], walk[a + 1]);
    assert WalkStep(items, walk[a], walk[a + 1].0);
  }

  lemma TurnedStep(items: seq<Item>, walk: seq<(nat, nat)>, t: nat, j: nat, start: nat, i: nat, a: nat)
    requires start < |items| / 3 && t < |items| / 3 && j < 3 && ReturnWalk(items, walk, t, j, start)
    requires Enterable(items, walk)
    requires t == start && 2 <= i < |walk| && Turns(items, walk, NameAt(items, t, j), start, i)
    requires walk[i].0 in Sharers(items, t, NameAt(items, t, j), |items| / 3) && a + 1 < |walk|
    ensures GoodStep(items, walk, i, a)
  {
    if a == 0 {
      TurnedFirst(items, walk, t, j, start, i);
    } else if a < i {
      TurnedBack(items, walk, t, j, start, i, a);
    } else if a == i {
      TurnedOut(items, walk, t, j, start, i);
    } else {
      TurnedOn(items, walk, t, j, start, i, a);
    }
  }

  // A walk that turns at `i` can be walked the other way round up to there.
  lemma TurnedReturns(items: seq<Item>, walk: seq<(nat, nat)>, t: nat, j: nat, start: nat, i: nat)
    requires start < |items| / 3 && t < |items| / 3 && j < 3 && ReturnWalk(items, walk, t, j, start)
    requires Enterable(items, walk)
    requires t == start && 2 <= i < |walk| && Turns(items, walk, NameAt(items, t, j), start, i)
    requires walk[i].0 in Sharers(items, t, NameAt(items, t, j), |items| / 3)
    ensures ReturnWalk(items, TurnedRound(items, walk, i), t, j, start)
  {
    var turned := TurnedRound(items, walk, i);
    forall a: nat, b: nat | b == a + 1 && b < |turned|
      ensures WalkStep(items, turned[a], turned[b].0) && OtherName(items, turned[a], turned[b])
    {
      TurnedStep(items, walk, t, j, start, i, a);
    }
    if i == |walk| - 1 {
      BackStep(items, walk, t, j, start, 1);
    }
  }

  lemma TurnedLeads(
      items: seq<Item>, walk: seq<(nat, nat)>, t: nat, j: nat, start: nat, avoid: set<nat>, i: nat)
    requires start < |items| / 3 && t < |items| / 3 && j < 3 && Leads(items, walk, t, j, start, avoid, true)
    requires t == start && 2 <= i < |walk| && Turns(items, walk, NameAt(items, t, j), start, i)
    requires walk[i].0 in Sharers(items, t, NameAt(items, t, j), |items| / 3) && Enterable(items, walk)
    ensures Leads(items, TurnedRound(items, walk, i), t, j, start, avoid, true)
  {
    TurnedReturns(items, walk, t, j, start, i);
  }

  // ---- What guides the search ----

  // After its second item the walk comes to no neighbour of its beginning but these.
  ghost predicate OnlyLater(items: seq<Item>, walk: seq<(nat, nat)>, t: nat, j: nat, others: set<nat>)
    requires t < |items| / 3 && j < 3
  {
    forall i: nat :: 2 <= i < |walk| && walk[i].0 in Sharers(items, t, NameAt(items, t, j), |items| / 3) ==>
      walk[i].0 in others
  }

  ghost predicate IsGuide(
      items: seq<Item>, walk: seq<(nat, nat)>, t: nat, j: nat, start: nat, checked: set<nat>, others: set<nat>)
    requires start < |items| / 3 && t < |items| / 3 && j < 3
  {
    && OneNamePerAddress(items) && Leads(items, walk, t, j, start, checked, true)
    && SecondOf(walk, start) in Sharers(items, t, NameAt(items, t, j), |items| / 3)
    && OnlyLater(items, walk, t, j, others)
  }

  // The walk goes on from the triple `o`.
  ghost predicate Continues(
      items: seq<Item>, walk: seq<(nat, nat)>, t: nat, j: nat, o: nat, start: nat, seen: set<nat>)
    requires start < |items| / 3
  {
    && OneNamePerAddress(items) && walk != [] && walk[0].0 == o && OtherName(items, (t, j), walk[0])
    && Leads(items, walk, o, walk[0].1, start, seen, true)
  }

  // A way back goes on from this item, which the comparison lets pass.
  ghost predicate Open(items: seq<Item>, t: nat, j: nat, o: nat, k: nat, start: nat, seen: set<nat>)
    requires t < |items| / 3 && j < 3 && o < |items| / 3 && k < 3 && start < |items| / 3
  {
    !Blocked(items[3 * o + k], items[3 * t + j]) && Returns(items, o, k, start, seen)
  }

  lemma GuideIsOpen(
      items: seq<Item>, guide: seq<(nat, nat)>, t: nat, j: nat, o: nat, start: nat, seen: set<nat>)
    requires t < |items| / 3 && j < 3 && o < |items| / 3 && start < |items| / 3
    requires Continues(items, guide, t, j, o, start, seen)
    ensures guide[0].1 < 3 && Open(items, t, j, o, guide[0].1, start, seen)
  {
  }

  lemma GuideGoesOn(
      items: seq<Item>, guide: seq<(nat, nat)>, t: nat, j: nat, start: nat, checked: set<nat>, others: set<nat>,
      seen: set<nat>)
    requires start < |items| / 3 && t < |items| / 3 && j < 3
    requires IsGuide(items, guide, t, j, start, checked, others) && |guide| > 1 && others !! seen
    requires seen <= checked + Sharers(items, t, NameAt(items, t, j), |items| / 3)
    ensures Continues(items, guide[1..], t, j, guide[1].0, start, seen)
  {
    assert OtherName(items, guide[0], guide[1]);
    Suffix(items, guide, 1, t, j, start, checked, true);
    forall i: nat | 2 <= i < |guide| ensures guide[i].0 !in seen {
    }
  }

  lemma ShortestBegins(items: seq<Item>, walk: seq<(nat, nat)>, t: nat, j: nat, start: nat, checked: set<nat>)
    requires start < |items| / 3 && t < |items| / 3 && j < 3 && Leads(items, walk, t, j, start, checked, true)
    ensures SecondOf(walk, start) in Sharers(items, t, NameAt(items, t, j), |items| / 3)
  {
    if |walk| > 1 {
      assert WalkStep(items, walk[0], walk[1].0);
    }
  }

  // The one neighbour that a shortest way comes to later is where it turns.
  lemma OnlyTurn(
      items: seq<Item>, walk: seq<(nat, nat)>, t: nat, j: nat, start: nat, checked: set<nat>, i: nat)
    requires start < |items| / 3 && t < |items| / 3 && j < 3 && IsShortest(items, walk, t, j, start, checked, true)
    requires (t in checked || t == start) && (t in checked || j == 0) && 2 <= i < |walk|
    requires walk[i].0 in Sharers(items, t, NameAt(items, t, j), |items| / 3)
    ensures t == start && Turns(items, walk, NameAt(items, t, j), start, i)
    ensures OnlyLater(items, walk, t, j, {walk[i].0})
  {
    NoSiblingLater(items, walk, t, j, start, checked, true, i);
    forall k: nat | 2 <= k < |walk| && walk[k].0 in Sharers(items, t, NameAt(items, t, j), |items| / 3)
      ensures k == i
    {
      NoSiblingLater(items, walk, t, j, start, checked, true, k);
      OneTurn(items, walk, t, j, start, checked, i, k);
    }
  }

  lemma Twin(items: seq<Item>, guide: seq<(nat, nat)>, t: nat, j: nat, start: nat, checked: set<nat>, i: nat)
    returns (twin: seq<(nat, nat)>)
    requires start < |items| / 3 && t < |items| / 3 && j < 3 && IsShortest(items, guide, t, j, start, checked, true)
    requires (t in checked || t == start) && (t in checked || j == 0) && 2 <= i < |guide|
    requires guide[i].0 in Sharers(items, t, NameAt(items, t, j), |items| / 3)
    ensures |twin| == |guide| && Leads(items, twin, t, j, start, checked, true)
    ensures twin[1].0 == guide[i].0 != guide[1].0
    ensures OnlyLater(items, guide, t, j, {twin[1].0}) && OnlyLater(items, twin, t, j, {guide[1].0})
  {
    OnlyTurn(items, guide, t, j, start, checked, i);
    WalkIsEnterable(items, guide, t, j, start);
    TurnedLeads(items, guide, t, j, start, checked, i);
    twin := TurnedRound(items, guide, i);
    assert IsShortest(items, twin, t, j, start, checked, true);
    assert twin[1] == TurnedAt(items, guide, i, 1) && twin[i] == TurnedAt(items, guide, i, i);
    ShortestBegins(items, guide, t, j, start, checked);
    OnlyTurn(items, twin, t, j, start, checked, i);
  }

  // A way back, and another one when it comes to a neighbour of its beginning later: each of the
  // two comes to no other neighbour later than where the other goes first.
  ghost predicate Guided(
      items: seq<Item>, guide: seq<(nat, nat)>, twin: seq<(nat, nat)>, t: nat, j: nat, start: nat, checked: set<nat>)
    requires start < |items| / 3 && t < |items| / 3 && j < 3
  {
    && IsGuide(items, guide, t, j, start, checked, if twin == [] then {} else {SecondOf(twin, start)})
    && (twin != [] ==>
          |guide| > 1 && |twin| > 1 && twin[1].0 != guide[1].0
          && IsGuide(items, twin, t, j, start, checked, {guide[1].0}))
  }

  // The triples where the ways go first are among these.
  ghost predicate Ahead(guide: seq<(nat, nat)>, twin: seq<(nat, nat)>, start: nat, left: set<nat>) {
    SecondOf(guide, start) in left && (twin != [] ==> SecondOf(twin, start) in left)
  }

  // A shortest way back, none when there is none; and its twin, when it comes to a neighbour of its
  // beginning later. Whichever of the two neighbours the search tries first, one of the ways is open.
  lemma Guide(items: seq<Item>, t: nat, j: nat, start: nat, checked: set<nat>)
    returns (guide: seq<(nat, nat)>, twin: seq<(nat, nat)>)
    requires start < |items| / 3 && t < |items| / 3 && j < 3 && (t in checked || t == start)
    ensures guide == [] ==>
              !(OneNamePerAddress(items) && (t in checked || j == 0) && Returns(items, t, j, start, checked))
    ensures guide != [] ==>
              && Guided(items, guide, twin, t, j, start, checked)
              && Ahead(guide, twin, start, Sharers(items, t, NameAt(items, t, j), |items| / 3))
  {
    guide, twin := [], [];
    if OneNamePerAddress(items) && (t in checked || j == 0) && Returns(items, t, j, start, checked) {
      var walk :| Leads(items, walk, t, j, start, checked, true);
      guide := Shorten(items, walk, t, j, start, checked, true);
      ShortestBegins(items, guide, t, j, start, checked);
      if i: nat :| 2 <= i < |guide| && guide[i].0 in Sharers(items, t, NameAt(items, t, j), |items| / 3) {
        twin := Twin(items, guide, t, j, start, checked, i);
        ShortestBegins(items, twin, t, j, start, checked);
      }
    }
  }

  // A way does not go to a checked triple first.
  lemma NotFirst(
      items: seq<Item>, walk: seq<(nat, nat)>, t: nat, j: nat, start: nat, checked: set<nat>, o: nat)
    requires start < |items| / 3 && t < |items| / 3 && j < 3 && Leads(items, walk, t, j, start, checked, true)
    requires !(o == start && NameAt(items, t, j) != NameAt(items, start, 0)) && (o in checked || |walk| == 1)
    ensures SecondOf(walk, start) != o
  {
  }

  lemma StillAhead(
      items: seq<Item>, guide: seq<(nat, nat)>, twin: seq<(nat, nat)>, t: nat, j: nat, start: nat, checked: set<nat>,
      left: set<nat>, o: nat)
    requires start < |items| / 3 && t < |items| / 3 && j < 3
    requires Guided(items, guide, twin, t, j, start, checked) && Ahead(guide, twin, start, left)
    requires !(o == start && NameAt(items, t, j) != NameAt(items, start, 0)) && o in checked
    ensures Ahead(guide, twin, start, left - {o})
  {
    NotFirst(items, guide, t, j, start, checked, o);
    if twin != [] {
      NotFirst(items, twin, t, j, start, checked, o);
    }
  }

  // The guide, or its twin, from the triple `o` on, when that is where it leads next.
  lemma RestOfGuide(
      items: seq<Item>, guide: seq<(nat, nat)>, twin: seq<(nat, nat)>, t: nat, j: nat, start: nat, checked: set<nat>,
      left: set<nat>, seen: set<nat>, o: nat)
    returns (rest: seq<(nat, nat)>)
    requires start < |items| / 3 && t < |items| / 3 && j < 3 && seen * left <= checked + {o}
    requires seen <= checked + Sharers(items, t, NameAt(items, t, j), |items| / 3)
    requires guide != [] ==> Guided(items, guide, twin, t, j, start, checked) && Ahead(guide, twin, start, left)
    requires !(o == start && NameAt(items, t, j) != NameAt(items, start, 0))
    ensures guide != [] && rest == [] ==> Ahead(guide, twin, start, left - {o})
    ensures rest != [] ==> Continues(items, rest, t, j, o, start, seen)
  {
    rest := [];
    if guide != [] {
      if |guide| > 1 && o == guide[1].0 {
        FirstOfTwo(items, guide, twin, t, j, start, checked, left, seen, o);
        rest := guide[1..];
      } else if twin != [] && o == twin[1].0 {
        SecondOfTwo(items, guide, twin, t, j, start, checked, left, seen, o);
        rest := twin[1..];
      } else if |guide| == 1 {
        NotFirst(items, guide, t, j, start, checked, o);
      }
    }
  }

  lemma FirstOfTwo(
      items: seq<Item>, guide: seq<(nat, nat)>, twin: seq<(nat, nat)>, t: nat, j: nat, start: nat, checked: set<nat>,
      left: set<nat>, seen: set<nat>, o: nat)
    requires start < |items| / 3 && t < |items| / 3 && j < 3 && seen * left <= checked + {o}
    requires seen <= checked + Sharers(items, t, NameAt(items, t, j), |items| / 3)
    requires Guided(items, guide, twin, t, j, start, checked) && Ahead(guide, twin, start, left)
    requires |guide| > 1 && o == guide[1].0
    ensures Continues(items, guide[1..], t, j, o, start, seen)
  {
    GuideGoesOn(items, guide, t, j, start, checked, if twin == [] then {} else {SecondOf(twin, start)}, seen);
  }

  lemma SecondOfTwo(
      items: seq<Item>, guide: seq<(nat, nat)>, twin: seq<(nat, nat)>, t: nat, j: nat, start: nat, checked: set<nat>,
      left: set<nat>, seen: set<nat>, o: nat)
    requires start < |items| / 3 && t < |items| / 3 && j < 3 && seen * left <= checked + {o}
    requires seen <= checked + Sharers(items, t, NameAt(items, t, j), |items| / 3)
    requires Guided(items, guide, twin, t, j, start, checked) && Ahead(guide, twin, start, left)
    requires twin != [] && o == twin[1].0
    ensures Continues(items, twin[1..], t, j, o, start, seen)
  {
    GuideGoesOn(items, twin, t, j, start, checked, {guide[1].0}, seen);
  }

  // ---- Ways that do not pass the start ----

  // A way back that meets neither `start` nor a checked triple in between, though perhaps others twice.
  ghost predicate ReturnsPast(items: seq<Item>, t: nat, j: nat, start: nat, checked: set<nat>)
    requires start < |items| / 3
  {
    exists walk :: Leads(items, walk, t, j, start, checked + {start}, false)
  }

  lemma {:induction false} ShortestIsSimple(
      items: seq<Item>, walk: seq<(nat, nat)>, t: nat, j: nat, start: nat, avoid: set<nat>)
    requires start < |items| / 3 && t < |items| / 3 && j < 3 && IsShortest(items, walk, t, j, start, avoid, false)
    requires t in avoid && start in avoid && (t == start ==> j == 0)
    ensures Simple(walk)
    decreases |walk|
  {
    if |walk| > 1 {
      var o, k := walk[1].0, walk[1].1;
      assert WalkStep(items, walk[0], o) && OtherName(items, walk[0], walk[1]);
      forall i: nat | 2 <= i < |walk| ensures walk[i].0 != o {
        NoSiblingLater(items, walk, t, j, start, avoid, false, i);
      }
      Suffix(items, walk, 1, t, j, start, avoid, false);
      assert Leads(items, walk[1..], o, k, start, avoid + {o}, false);
      forall other | Leads(items, other, o, k, start, avoid + {o}, false) ensures |walk[1..]| <= |other| {
        LongerWay(items, other, o, k, t, j, start, avoid, avoid + {o}, false);
      }
      ShortestIsSimple(items, walk[1..], o, k, start, avoid + {o});
      forall a: nat, b: nat | 0 < a < b < |walk| ensures walk[a].0 != walk[b].0 {
        assert a > 1 ==> walk[a] == walk[1..][a - 1] && walk[b] == walk[1..][b - 1];
      }
    }
  }

  // Such a way need not pass any triple twice, so the search finds it.
  lemma PastIsEnough(items: seq<Item>, t: nat, j: nat, start: nat, checked: set<nat>)
    requires start < |items| / 3 && t < |items| / 3 && j < 3 && (t in checked || t == start) && (t == start ==> j == 0)
    requires ReturnsPast(items, t, j, start, checked)
    ensures Returns(items, t, j, start, checked)
  {
    var walk :| Leads(items, walk, t, j, start, checked + {start}, false);
    var least := Shorten(items, walk, t, j, start, checked + {start}, false);
    ShortestIsSimple(items, least, t, j, start, checked + {start});
    assert Leads(items, least, t, j, start, checked, true);
  }

  // ---- When the order decides ----

  // The search when every set yields its triples in this order.
  ghost function Finds(items: seq<Item>, order: seq<nat>, t: nat, j: nat, start: nat, checked: set<nat>): bool
    requires t < |items| / 3 && j < 3 && start < |items| / 3
    decreases Triples(items) - checked, |order| + 1
  {
    FindsAmong(items, order, t, j, start, checked, order)
  }

  ghost function FindsAmong(
      items: seq<Item>, order: seq<nat>, t: nat, j: nat, start: nat, seen: set<nat>, left: seq<nat>): bool
    requires t < |items| / 3 && j < 3 && start < |items| / 3
    decreases Triples(items) - seen, |left|
  {
    if left == [] then false
    else
      var o, rest := left[0], left[1..];
      if o !in Sharers(items, t, NameAt(items, t, j), |items| / 3) then
        FindsAmong(items, order, t, j, start, seen, rest)
      else if o == start && NameAt(items, t, j) != NameAt(items, start, 0) then true
      else if o in seen then FindsAmong(items, order, t, j, start, seen, rest)
      else
        assert Triples(items) - (seen + {o}) < Triples(items) - seen by {
          assert o in Triples(items) - seen;
        }
        || FindsBehind(items, order, t, j, o, 0, start, seen)
        || FindsBehind(items, order, t, j, o, 1, start, seen)
        || FindsBehind(items, order, t, j, o, 2, start, seen)
        || FindsAmong(items, order, t, j, start, seen + {o}, rest)
  }

  ghost predicate FindsBehind(
      items: seq<Item>, order: seq<nat>, t: nat, j: nat, o: nat, k: nat, start: nat, seen: set<nat>)
    requires t < |items| / 3 && j < 3 && start < |items| / 3 && o < |items| / 3 && k < 3 && o !in seen
    decreases Triples(items) - seen, 0
  {
    assert Triples(items) - (seen + {o}) < Triples(items) - seen by {
      assert o in Triples(items) - seen;
    }
    !Blocked(items[3 * o + k], items[3 * t + j]) && Finds(items, order, o, k, start, seen + {o})
  }

  // Two names `c` and `a` for one address x, and connectors under one name `b`:
  // (c, _, a), (_, b, c), (c, b, a).
  ghost predicate TwoNamesOneAddress(items: seq<Item>, a: string, b: string, c: string, x: Addr) {
    && a != "" && b != "" && c != "" && a != b && a != c && b != c && x != EMPTY
    && items == [
                  Item(AddrItem, x, UNKNOWN, c), Item(TypeItem, EMPTY, VAR_ARC, ""), Item(AddrItem, x, UNKNOWN, a),
                  Item(TypeItem, EMPTY, VAR_NODE, ""), Item(TypeItem, EMPTY, VAR_ARC, b), Item(AddrItem, x, UNKNOWN, c),
                  Item(AddrItem, x, UNKNOWN, c), Item(TypeItem, EMPTY, VAR_ARC, b), Item(AddrItem, x, UNKNOWN, a)]
  }

  lemma {:induction false} NoAddress(items: seq<Item>, name: string)
    requires forall item <- items :: item.kind == AddrItem ==> item.name != name
    ensures LastAddr(items, name) == EMPTY
  {
    if items != [] {
      NoAddress(items[..|items| - 1], name);
    }
  }

  // An item that no earlier address stands for stays as it is.
  predicate Stays(items: seq<Item>, item: Item) {
    || item.kind == AddrItem || item.name == ""
    || forall other <- items :: other.kind == AddrItem ==> other.name != item.name
  }

  lemma AddedAsTheyAre(items: seq<Item>, p: Item, q: Item, r: Item)
    requires Stays(items, p) && Stays(items + [p], q) && Stays(items + [p] + [q], r)
    ensures AddedTriple(items, p, q, r) == items + [p, q, r]
  {
    if p.kind != AddrItem && p.name != "" {
      NoAddress(items, p.name);
    }
    if q.kind != AddrItem && q.name != "" {
      NoAddress(items + [p], q.name);
    }
    if r.kind != AddrItem && r.name != "" {
      NoAddress(items + [p] + [q], r.name);
    }
  }

  lemma VariableTypes(name: string)
    ensures Accepted(Item(TypeItem, EMPTY, VAR_NODE, name)) && Accepted(Item(TypeItem, EMPTY, VAR_ARC, name))
  {
    assert !IsConnector(VAR_NODE) && ConnectorType(VAR_ARC) && HasSubtype(VAR_NODE, VAR) && HasSubtype(VAR_ARC, VAR);
  }

  lemma AddressItem(x: Addr, name: string)
    requires x != EMPTY
    ensures Accepted(Item(AddrItem, x, UNKNOWN, name))
  {
    assert !IsConnector(UNKNOWN);
  }

  lemma Laid(p: Item, q: Item, r: Item, s: Item, u: Item, v: Item, x: Item, y: Item, z: Item)
    ensures [] + [p, q, r] == [p, q, r] && [p, q, r] + [s, u, v] == [p, q, r, s, u, v]
    ensures [p, q, r, s, u, v] + [x, y, z] == [p, q, r, s, u, v, x, y, z]
  {
  }

  method AddAsTheyAre(template: ScTemplate, p: Item, q: Item, r: Item)
    requires template.Valid() && Accepted(p) && Accepted(q) && Accepted(r)
    requires q.name == "" || q.name !in {p.name, r.name}
    requires Stays(template.items, p) && Stays(template.items + [p], q) && Stays(template.items + [p] + [q], r)
    modifies template
    ensures template.Valid() && template.items == old(template.items) + [p, q, r]
  {
    AddedAsTheyAre(template.items, p, q, r);
    var ok := template.Triple(p, q, r);
  }

  // `Triple` accepts these triples and leaves their items as they are.
  method TwoNamesTemplate(a: string, b: string, c: string, x: Addr) returns (template: ScTemplate)
    requires a != "" && b != "" && c != "" && a != b && a != c && b != c && x != EMPTY
    ensures fresh(template) && template.Valid() && TwoNamesOneAddress(template.items, a, b, c, x)
  {
    var node, arc := Item(TypeItem, EMPTY, VAR_NODE, ""), Item(TypeItem, EMPTY, VAR_ARC, b);
    var unnamed := Item(TypeItem, EMPTY, VAR_ARC, "");
    var first, second := Item(AddrItem, x, UNKNOWN, c), Item(AddrItem, x, UNKNOWN, a);
    VariableTypes("");
    VariableTypes(b);
    AddressItem(x, c);
    AddressItem(x, a);
    Laid(first, unnamed, second, node, arc, first, first, arc, second);
    template := new ScTemplate();
    AddAsTheyAre(template, first, unnamed, second);
    AddAsTheyAre(template, node, arc, first);
    AddAsTheyAre(template, first, arc, second);
  }

  lemma ExampleSharers(items: seq<Item>, a: string, b: string, c: string, x: Addr)
    requires TwoNamesOneAddress(items, a, b, c, x)
    ensures Sharers(items, 0, c, 3) == {1, 2} && Sharers(items, 1, b, 3) == {2} && Sharers(items, 2, b, 3) == {1}
    ensures Sharers(items, 1, c, 3) == {0, 2} && Sharers(items, 2, a, 3) == {0}
  {
    assert NameAt(items, 0, 0) == c && NameAt(items, 0, 1) == "" && NameAt(items, 0, 2) == a;
    assert NameAt(items, 1, 0) == "" && NameAt(items, 1, 1) == b && NameAt(items, 1, 2) == c;
    assert NameAt(items, 2, 0) == c && NameAt(items, 2, 1) == b && NameAt(items, 2, 2) == a;
  }

  // An item without a name leads nowhere.
  lemma {:induction false} NamelessFindsNothing(
      items: seq<Item>, order: seq<nat>, t: nat, j: nat, start: nat, seen: set<nat>, left: seq<nat>)
    requires t < |items| / 3 && j < 3 && start < |items| / 3 && NameAt(items, t, j) == ""
    ensures !FindsAmong(items, order, t, j, start, seen, left)
    decreases |left|
  {
    if left != [] {
      NamelessFindsNothing(items, order, t, j, start, seen, left[1..]);
    }
  }

  // With the second triple first, the way back 0 - 1 - 2 - 0 is found ...
  lemma FoundInOneOrder(items: seq<Item>, a: string, b: string, c: string, x: Addr)
    requires TwoNamesOneAddress(items, a, b, c, x)
    ensures Finds(items, [1, 2, 0], 0, 0, 0, {})
  {
    var order := [1, 2, 0];
    ExampleSharers(items, a, b, c, x);
    assert order[1..] == [2, 0] && [2, 0][1..] == [0];
    assert FindsAmong(items, order, 2, 2, 0, {1, 2}, [0]);
    assert FindsAmong(items, order, 2, 2, 0, {1, 2}, [2, 0]);
    assert Finds(items, order, 2, 2, 0, {1, 2});
    assert {1} + {2} == {1, 2};
    assert FindsBehind(items, order, 1, 1, 2, 2, 0, {1});
    assert FindsAmong(items, order, 1, 1, 0, {1}, [2, 0]);
    assert Finds(items, order, 1, 1, 0, {1});
    assert {} + {1} == {1};
    assert FindsBehind(items, order, 0, 0, 1, 1, 0, {});
  }

  // ... and with the third triple first it is missed: that triple is then marked, and the start,
  // reached from the second one, is left by no other item than one of the same address.
  lemma MissedInTheOther(items: seq<Item>, a: string, b: string, c: string, x: Addr)
    requires TwoNamesOneAddress(items, a, b, c, x)
    ensures !Finds(items, [2, 1, 0], 0, 0, 0, {})
  {
    var order := [2, 1, 0];
    assert order[1..] == [1, 0] && [1, 0][1..] == [0];
    ExampleSharers(items, a, b, c, x);
    ThirdFirst(items, order, a, b, c, x);
    SecondThen(items, order, a, b, c, x);
    assert {} + {2} == {2};
    assert !FindsBehind(items, order, 0, 0, 2, 0, 0, {}) && !FindsBehind(items, order, 0, 0, 2, 2, 0, {});
    assert !FindsAmong(items, order, 0, 0, 0, {}, [2, 1, 0]);
  }

  // From the third triple by `b` to the second, and no further.
  lemma ThirdFirst(items: seq<Item>, order: seq<nat>, a: string, b: string, c: string, x: Addr)
    requires TwoNamesOneAddress(items, a, b, c, x) && order == [2, 1, 0]
    ensures !FindsBehind(items, order, 0, 0, 2, 1, 0, {})
  {
    assert order[1..] == [1, 0] && [1, 0][1..] == [0] && [0][1..] == [];
    ExampleSharers(items, a, b, c, x);
    BehindSecond(items, order, a, b, c, x);
    assert {} + {2} == {2} && {2} + {1} == {1, 2};
    assert !FindsBehind(items, order, 2, 1, 1, 1, 0, {2});
    assert !FindsAmong(items, order, 2, 1, 0, {1, 2}, []);
    assert !FindsAmong(items, order, 2, 1, 0, {1, 2}, [0]);
    assert !FindsAmong(items, order, 2, 1, 0, {2}, [1, 0]);
    assert !FindsAmong(items, order, 2, 1, 0, {2}, [2, 1, 0]);
    assert !Finds(items, order, 2, 1, 0, {2});
  }

  // From the second triple, when the third is marked.
  lemma BehindSecond(items: seq<Item>, order: seq<nat>, a: string, b: string, c: string, x: Addr)
    requires TwoNamesOneAddress(items, a, b, c, x) && order == [2, 1, 0]
    ensures !FindsBehind(items, order, 2, 1, 1, 0, 0, {2})
    ensures !FindsBehind(items, order, 2, 1, 1, 2, 0, {2})
  {
    assert order[1..] == [1, 0] && [1, 0][1..] == [0] && [0][1..] == [];
    ExampleSharers(items, a, b, c, x);
    assert {2} + {1} == {1, 2} && {1, 2} + {0} == {0, 1, 2};
    NamelessFindsNothing(items, order, 1, 0, 0, {1, 2}, order);
    NamelessFindsNothing(items, order, 0, 1, 0, {0, 1, 2}, order);
    assert !FindsBehind(items, order, 1, 2, 0, 0, 0, {1, 2}) && !FindsBehind(items, order, 1, 2, 0, 1, 0, {1, 2});
    assert !FindsBehind(items, order, 1, 2, 0, 2, 0, {1, 2});
    assert !FindsAmong(items, order, 1, 2, 0, {0, 1, 2}, []);
    assert !FindsAmong(items, order, 1, 2, 0, {1, 2}, [0]);
    assert !FindsAmong(items, order, 1, 2, 0, {1, 2}, [1, 0]);
    assert !FindsAmong(items, order, 1, 2, 0, {1, 2}, [2, 1, 0]);
    assert !Finds(items, order, 1, 2, 0, {1, 2});
  }

  // The second triple at last leads back to the third only.
  lemma SecondThen(items: seq<Item>, order: seq<nat>, a: string, b: string, c: string, x: Addr)
    requires TwoNamesOneAddress(items, a, b, c, x) && order == [2, 1, 0]
    ensures !FindsAmong(items, order, 0, 0, 0, {2}, [1, 0])
  {
    assert order[1..] == [1, 0] && [1, 0][1..] == [0] && [0][1..] == [];
    ExampleSharers(items, a, b, c, x);
    assert {2} + {1} == {1, 2};
    NamelessFindsNothing(items, order, 1, 0, 0, {1, 2}, order);
    assert !FindsAmong(items, order, 1, 1, 0, {1, 2}, []);
    assert !FindsAmong(items, order, 1, 1, 0, {1, 2}, [0]);
    assert !FindsAmong(items, order, 1, 1, 0, {1, 2}, [1, 0]);
    assert !FindsAmong(items, order, 1, 1, 0, {1, 2}, [2, 1, 0]);
    assert !Finds(items, order, 1, 1, 0, {1, 2});
    assert !FindsBehind(items, order, 0, 0, 1, 1, 0, {2}) && !FindsBehind(items, order, 0, 0, 1, 2, 0, {2});
    assert !FindsBehind(items, order, 0, 0, 1, 0, 0, {2});
    assert !FindsAmong(items, order, 0, 0, 0, {1, 2}, []);
    assert !FindsAmong(items, order, 0, 0, 0, {1, 2}, [0]);
  }

  // The same template, and two orders of the triples with two answers.
  lemma OrderDecides(items: seq<Item>, a: string, b: string, c: string, x: Addr)
    requires TwoNamesOneAddress(items, a, b, c, x)
    ensures Finds(items, [1, 2, 0], 0, 0, 0, {}) && !Finds(items, [2, 1, 0], 0, 0, 0, {})
  {
    FoundInOneOrder(items, a, b, c, x);
    MissedInTheOther(items, a, b, c, x);
  }

  // ---- Connected components ----

  function Below(n: nat): (r: set<nat>)
    ensures forall t: nat :: t in r <==> t < n
  {
    if n == 0 then {} else Below(n - 1) + {n - 1}
  }

  function Triples(items: seq<Item>): set<nat> { Below(|items| / 3) }

  // A path between two triples, each step to a triple that shares a name.
  ghost predicate Path(items: seq<Item>, path: seq<nat>, a: nat, b: nat) {
    && path != [] && path[0] == a && path[|path| - 1] == b
    && (forall i: nat :: i < |path| ==> path[i] < |items| / 3)
    && forall i: nat, k: nat :: k == i + 1 && k < |path| ==> Adjacent(items, path[i], path[k])
  }

  ghost predicate Connected(items: seq<Item>, a: nat, b: nat) {
    exists path :: Path(items, path, a, b)
  }

  lemma ConnectedSelf(items: seq<Item>, a: nat)
    requires a < |items| / 3
    ensures Connected(items, a, a)
  {
    assert Path(items, [a], a, a);
  }

  lemma ConnectedStep(items: seq<Item>, a: nat, b: nat, c: nat)
    requires a < |items| / 3 && b < |items| / 3 && Adjacent(items, a, b) && Connected(items, b, c)
    ensures Connected(items, a, c)
  {
    var path :| Path(items, path, b, c);
    assert Path(items, [a] + path, a, c);
  }

  lemma {:induction false} ConnectedTransitive(items: seq<Item>, path: seq<nat>, a: nat, b: nat, c: nat)
    requires Path(items, path, a, b) && Connected(items, b, c)
    ensures Connected(items, a, c)
    decreases |path|
  {
    if |path| > 1 {
      assert Adjacent(items, path[0], path[1]);
      var rest := path[1..];
      forall i: nat, k: nat | k == i + 1 && k < |rest| ensures Adjacent(items, rest[i], rest[k]) {
        assert Adjacent(items, path[i + 1], path[k + 1]);
      }
      ConnectedTransitive(items, rest, path[1], b, c);
      ConnectedStep(items, a, path[1], c);
    }
  }

  // Whoever is connected to an element of a closed set is in it.
  lemma {:induction false} ClosedKeeps(items: seq<Item>, all: set<nat>, path: seq<nat>, a: nat, b: nat)
    requires a in all && Path(items, path, a, b)
    requires forall x <- all, y <- Triples(items) :: x < |items| / 3 && Adjacent(items, x, y) ==> y in all
    ensures b in all
    decreases |path|
  {
    if |path| > 1 {
      assert Adjacent(items, path[0], path[1]);
      var rest := path[1..];
      forall i: nat, k: nat | k == i + 1 && k < |rest| ensures Adjacent(items, rest[i], rest[k]) {
        assert Adjacent(items, path[i + 1], path[k + 1]);
      }
      ClosedKeeps(items, all, rest, path[1], b);
    }
  }

  // All neighbours of the triple are in the set.
  ghost predicate NeighboursIn(items: seq<Item>, t: nat, all: set<nat>)
    requires t < |items| / 3
  {
    forall y <- Triples(items) :: Adjacent(items, t, y) ==> y in all
  }

  // What a search from `t` has added is connected to it, and is left with no neighbour unchecked.
  ghost predicate FoundBelow(items: seq<Item>, t: nat, checked: set<nat>, after: set<nat>) {
    forall x <- after - checked ::
      x < |items| / 3 && Connected(items, t, x) && NeighboursIn(items, x, after)
  }

  ghost predicate SearchedItem(items: seq<Item>, t: nat, j: nat, checked: set<nat>, after: set<nat>)
    requires t < |items| / 3 && j < 3
  {
    && FoundBelow(items, t, checked, after)
    && Sharers(items, t, NameAt(items, t, j), |items| / 3) <= after
  }

  // The items of `t` below `j` have been searched.
  ghost predicate Searched(items: seq<Item>, t: nat, j: nat, checked: set<nat>, after: set<nat>)
    requires t < |items| / 3 && j <= 3
  {
    && checked <= after <= Triples(items) && FoundBelow(items, t, checked, after)
    && forall k: nat :: k < j ==> Sharers(items, t, NameAt(items, t, k), |items| / 3) <= after
  }

  lemma SearchedNone(items: seq<Item>, t: nat, checked: set<nat>)
    requires t < |items| / 3 && checked <= Triples(items)
    ensures Searched(items, t, 0, checked, checked)
  {
  }

  lemma SearchedJoin(items: seq<Item>, t: nat, j: nat, checked: set<nat>, between: set<nat>, after: set<nat>)
    requires t < |items| / 3 && j < 3 && Searched(items, t, j, checked, between)
    requires between <= after <= Triples(items) && SearchedItem(items, t, j, between, after)
    ensures Searched(items, t, j + 1, checked, after)
  {
    forall x <- after - checked
      ensures x < |items| / 3 && Connected(items, t, x) && NeighboursIn(items, x, after)
    {
      assert x in between - checked || x in after - between;
    }
  }

  lemma SearchedNeighbours(items: seq<Item>, t: nat, checked: set<nat>, after: set<nat>)
    requires t < |items| / 3 && Searched(items, t, 3, checked, after)
    ensures NeighboursIn(items, t, after)
  {
    forall y <- Triples(items) | Adjacent(items, t, y) ensures y in after {
      var j :| 0 <= j < 3 && NameAt(items, t, j) != "" && HasName(items, y, NameAt(items, t, j));
      assert y in Sharers(items, t, NameAt(items, t, j), |items| / 3);
    }
  }

  // The neighbour `o` of `t` has been searched with all it leads to.
  lemma FoundMore(
      items: seq<Item>, t: nat, o: nat, checked: set<nat>, before: set<nat>, marked: set<nat>, after: set<nat>)
    requires t < |items| / 3 && o < |items| / 3 && Adjacent(items, t, o)
    requires checked <= before && marked == before + {o} && FoundBelow(items, t, checked, before)
    requires Searched(items, o, 3, marked, after)
    ensures FoundBelow(items, t, checked, after)
  {
    SearchedNeighbours(items, o, marked, after);
    ConnectedSelf(items, o);
    forall x <- after - checked
      ensures x < |items| / 3 && Connected(items, t, x) && NeighboursIn(items, x, after)
    {
      if x in before {
        assert x in before - checked;
      } else {
        ConnectedStep(items, t, o, x);
      }
    }
  }

  // A component belongs to the first of its triples; the later ones get an empty set.
  ghost predicate ComponentOf(items: seq<Item>, t: nat, component: set<nat>) {
    forall x: nat :: x in component <==>
      Connected(items, t, x) && forall s: nat :: s < t ==> !Connected(items, s, t)
  }

  // What `checked` holds after the first triples: whole components, of all triples that have
  // neighbours. A triple without neighbours is never marked.
  ghost predicate Explored(items: seq<Item>, components: seq<set<nat>>, checked: set<nat>) {
    && checked <= Triples(items) && |components| <= |items| / 3
    && (forall x <- checked :: NeighboursIn(items, x, checked))
    && (forall x <- checked :: exists s: nat :: s < |components| && Connected(items, s, x))
    && (forall s: nat :: s < |components| ==> s in checked || NeighboursIn(items, s, {}))
    && forall s: nat :: s < |components| ==> ComponentOf(items, s, components[s])
  }

  lemma NewClosed(items: seq<Item>, t: nat, before: set<nat>, after: set<nat>)
    requires t < |items| / 3 && t !in before && before <= Triples(items) && Searched(items, t, 3, before, after)
    requires forall x <- before :: NeighboursIn(items, x, before)
    ensures
      var component := {t} + (after - before);
      forall x <- component, y <- Triples(items) :: x < |items| / 3 && Adjacent(items, x, y) ==> y in component
  {
    SearchedNeighbours(items, t, before, after);
    var component := {t} + (after - before);
    forall x <- component, y <- Triples(items) | x < |items| / 3 && Adjacent(items, x, y) ensures y in component {
      AdjacentSymmetric(items, x, y);
      assert y in before ==> x in before;
    }
  }

  // Nothing before `t` is connected to it when it has not been checked.
  lemma NotReachedBefore(items: seq<Item>, components: seq<set<nat>>, checked: set<nat>, t: nat, s: nat)
    requires Explored(items, components, checked) && s < |components| == t < |items| / 3 && t !in checked
    ensures !Connected(items, s, t)
  {
    if Connected(items, s, t) {
      var path :| Path(items, path, s, t);
      if s in checked {
        ClosedKeeps(items, checked, path, s, t);
      } else {
        ClosedKeeps(items, {s}, path, s, t);
      }
    }
  }

  lemma ComponentFound(items: seq<Item>, components: seq<set<nat>>, before: set<nat>, after: set<nat>, t: nat)
    requires Explored(items, components, before) && t == |components| < |items| / 3 && t !in before
    requires Searched(items, t, 3, before, after)
    ensures ComponentOf(items, t, {t} + (after - before))
  {
    var component := {t} + (after - before);
    NewClosed(items, t, before, after);
    ConnectedSelf(items, t);
    forall s: nat | s < t ensures !Connected(items, s, t) {
      NotReachedBefore(items, components, before, t, s);
    }
    forall x: nat | Connected(items, t, x) ensures x in component {
      var path :| Path(items, path, t, x);
      ClosedKeeps(items, component, path, t, x);
    }
  }

  lemma NoNeighbours(items: seq<Item>, t: nat, all: set<nat>)
    requires t < |items| / 3 && t !in all && NeighboursIn(items, t, all)
    requires forall x <- all :: x < |items| / 3 && NeighboursIn(items, x, all)
    ensures NeighboursIn(items, t, {})
  {
    forall y <- Triples(items) ensures !Adjacent(items, t, y) {
      AdjacentSymmetric(items, t, y);
      assert y in all ==> NeighboursIn(items, y, all);
    }
  }

  lemma ExploredStep(
      items: seq<Item>, components: seq<set<nat>>, before: set<nat>, after: set<nat>, component: set<nat>)
    requires Explored(items, components, before) && |components| < |items| / 3
    requires |components| in before ==> after == before && component == {}
    requires |components| !in before ==>
               component == {|components|} + (after - before) && Searched(items, |components|, 3, before, after)
    ensures Explored(items, components + [component], after)
  {
    var t, all := |components|, components + [component];
    if t in before {
      assert ComponentOf(items, t, component);
    } else {
      ComponentFound(items, components, before, after, t);
      NewClosed(items, t, before, after);
      forall x <- after ensures NeighboursIn(items, x, after) {
        assert x in before || x in after - before;
      }
      if t !in after {
        SearchedNeighbours(items, t, before, after);
        NoNeighbours(items, t, after);
      }
      forall x <- after ensures exists s: nat :: s < |all| && Connected(items, s, x) {
        if x in before {
          var s: nat :| s < |components| && Connected(items, s, x);
          assert s < |all|;
        } else {
          assert Connected(items, t, x);
        }
      }
    }
    forall s: nat | s < |all| ensures ComponentOf(items, s, all[s]) {
      assert s < t ==> all[s] == components[s];
    }
  }

  // The sets partition the triples: two triples are in the same set exactly when a chain of shared
  // names leads from one to the other.
  ghost predicate Partition(items: seq<Item>, components: seq<set<nat>>) {
    && |components| == |items| / 3
    && (forall a <- Triples(items) :: exists i: nat :: i < |components| && a in components[i])
    && (forall i: nat, k: nat :: i < k < |components| ==> components[i] !! components[k])
    && forall a <- Triples(items), b <- Triples(items) ::
         Connected(items, a, b) <==> exists i: nat :: i < |components| && a in components[i] && b in components[i]
  }

  lemma {:induction false} ConnectedSymmetric(items: seq<Item>, path: seq<nat>, a: nat, b: nat)
    requires Path(items, path, a, b)
    ensures Connected(items, b, a)
    decreases |path|
  {
    if |path| == 1 {
      ConnectedSelf(items, a);
    } else {
      assert Adjacent(items, path[0], path[1]);
      var rest := path[1..];
      forall i: nat, k: nat | k == i + 1 && k < |rest| ensures Adjacent(items, rest[i], rest[k]) {
        assert Adjacent(items, path[i + 1], path[k + 1]);
      }
      ConnectedSymmetric(items, rest, path[1], b);
      AdjacentSymmetric(items, a, path[1]);
      assert Path(items, [path[1], a], path[1], a);
      var back :| Path(items, back, b, path[1]);
      ConnectedTransitive(items, back, b, path[1], a);
    }
  }

  lemma Related(items: seq<Item>, s: nat, a: nat, b: nat)
    requires Connected(items, s, a) && Connected(items, s, b)
    ensures Connected(items, a, b)
  {
    var path :| Path(items, path, s, a);
    ConnectedSymmetric(items, path, s, a);
    var back :| Path(items, back, a, s);
    ConnectedTransitive(items, back, a, s, b);
  }

  lemma Onwards(items: seq<Item>, a: nat, b: nat, c: nat)
    requires Connected(items, a, b) && Connected(items, b, c)
    ensures Connected(items, a, c)
  {
    var path :| Path(items, path, a, b);
    ConnectedTransitive(items, path, a, b, c);
  }

  // The first triple connected to `a`.
  lemma {:induction false} First(items: seq<Item>, a: nat, from: nat) returns (s: nat)
    requires from <= a < |items| / 3 && forall r: nat :: r < from ==> !Connected(items, r, a)
    ensures s <= a && Connected(items, s, a) && forall r: nat :: r < s ==> !Connected(items, r, s)
    decreases a - from
  {
    ConnectedSelf(items, a);
    if Connected(items, from, a) {
      s := from;
      forall r: nat | r < s ensures !Connected(items, r, s) {
        if Connected(items, r, s) {
          Onwards(items, r, s, a);
        }
      }
    } else {
      s := First(items, a, from + 1);
    }
  }

  lemma ExploredAll(items: seq<Item>, components: seq<set<nat>>, checked: set<nat>)
    requires Explored(items, components, checked) && |components| == |items| / 3
    ensures Partition(items, components)
  {
    forall a <- Triples(items) ensures exists i: nat :: i < |components| && a in components[i] {
      var s := First(items, a, 0);
      assert ComponentOf(items, s, components[s]);
    }
    forall i: nat, k: nat | i < k < |components| ensures components[i] !! components[k] {
      forall x <- components[i] ensures x !in components[k] {
        assert ComponentOf(items, i, components[i]) && ComponentOf(items, k, components[k]);
        if x in components[k] {
          Disjoint(items, i, k, x);
        }
      }
    }
    forall a <- Triples(items), b <- Triples(items)
      ensures Connected(items, a, b) <==> exists i: nat :: i < |components| && a in components[i] && b in components[i]
    {
      if Connected(items, a, b) {
        var s := First(items, a, 0);
        Onwards(items, s, a, b);
        assert ComponentOf(items, s, components[s]);
      }
      if i: nat :| i < |components| && a in components[i] && b in components[i] {
        assert ComponentOf(items, i, components[i]);
        Related(items, i, a, b);
      }
    }
  }

  lemma Disjoint(items: seq<Item>, i: nat, k: nat, x: nat)
    requires Connected(items, i, x) && Connected(items, k, x)
    ensures Connected(items, i, k)
  {
    var path :| Path(items, path, k, x);
    ConnectedSymmetric(items, path, k, x);
    Onwards(items, i, x, k);
  }
}
