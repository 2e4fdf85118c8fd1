// ScAction of sc_action.cpp: how an action is initiated, given arguments and a result, and finished.
module ScAction {
  import opened ScTypes
  import opened ScGraph

  datatype Keynodes = Keynodes(
    initiated: Addr, finished: Addr, successfully: Addr, unsuccessfully: Addr, withError: Addr, result: Addr)

  function AllOf(keys: Keynodes): set<Addr> {
    {keys.initiated, keys.finished, keys.successfully, keys.unsuccessfully, keys.withError, keys.result}
  }

  predicate Distinct(keys: Keynodes) {
    && keys.initiated !in {keys.finished, keys.successfully, keys.unsuccessfully, keys.withError, keys.result}
    && keys.finished !in {keys.successfully, keys.unsuccessfully, keys.withError, keys.result}
    && keys.successfully !in {keys.unsuccessfully, keys.withError, keys.result}
    && keys.unsuccessfully !in {keys.withError, keys.result} && keys.withError != keys.result
  }

  // ---- What memory says about an action ----

  predicate StateArc(g: Graph, key: Addr, action: Addr, x: Addr) {
    x in g && HasSubtype(g[x].ty, CONST_PERM_POS_ARC) && g[x].begin == key && g[x].end == action
  }

  function StateArcs(g: Graph, key: Addr, action: Addr): set<Addr> {
    set x <- g | StateArc(g, key, action, x)
  }

  // An arc of the type from the action, with a membership arc from the relation.
  predicate RoleArc(g: Graph, ty: ScType, relation: Addr, action: Addr, y: Addr, q: Addr) {
    && y in g && HasSubtype(g[y].ty, ty) && g[y].begin == action
    && q in g && HasSubtype(g[q].ty, CONST_PERM_POS_ARC) && g[q].begin == relation && g[q].end == y
  }

  function RoleArcs(g: Graph, ty: ScType, relation: Addr, action: Addr): set<Addr> {
    set y <- g, q <- g | RoleArc(g, ty, relation, action, y, q) :: y
  }

  // Keynodes and the action are nodes, all of them different.
  ghost predicate Placed(g: Graph, keys: Keynodes, action: Addr) {
    && Wf(g) && Distinct(keys) && action !in AllOf(keys)
    && action in g && !IsConnector(g[action].ty)
    && forall k <- AllOf(keys) :: k in g && !IsConnector(g[k].ty)
  }

  ghost function EndStates(g: Graph, keys: Keynodes, action: Addr): set<Addr> {
    StateArcs(g, keys.successfully, action) + StateArcs(g, keys.unsuccessfully, action)
    + StateArcs(g, keys.withError, action)
  }

  function ResultArcs(g: Graph, keys: Keynodes, action: Addr): set<Addr> {
    RoleArcs(g, CONST_COMMON_ARC, keys.result, action)
  }

  // Results are nodes.
  ghost predicate ResultsPlaced(g: Graph, keys: Keynodes, action: Addr) {
    forall y <- ResultArcs(g, keys, action) ::
      y in g && g[y].ty == CONST_COMMON_ARC && g[y].end in g && !IsConnector(g[g[y].end].ty)
  }

  // Initiated at most once and finished at most once; finished only when initiated, and then in
  // exactly one of the end states and with exactly one result.
  ghost predicate Phases(initiated: set<Addr>, finished: set<Addr>, ends: set<Addr>, results: set<Addr>) {
    && |initiated| <= 1
    && if finished == {} then ends == {} && |results| <= 1
       else |initiated| == |finished| == |ends| == |results| == 1
  }

  ghost predicate Lifecycle(g: Graph, keys: Keynodes, action: Addr) {
    && Placed(g, keys, action) && ResultsPlaced(g, keys, action)
    && Phases(
         StateArcs(g, keys.initiated, action), StateArcs(g, keys.finished, action), EndStates(g, keys, action),
         ResultArcs(g, keys, action))
  }

  // ---- One more element ----

  lemma StateArcsAfter(g: Graph, c: Addr, element: Element, key: Addr, action: Addr)
    requires c !in g
    ensures StateArcs(g[c := element], key, action) ==
            StateArcs(g, key, action)
            + if HasSubtype(element.ty, CONST_PERM_POS_ARC) && element.begin == key && element.end == action
              then {c} else {}
  {
    var after := g[c := element];
    forall x
      ensures StateArc(after, key, action, x) <==>
              StateArc(g, key, action, x) || (x == c && StateArc(after, key, action, c))
    {
    }
  }

  // A new connector makes a role arc of its end when it begins at the relation.
  lemma RoleArcAfter(g: Graph, c: Addr, element: Element, ty: ScType, relation: Addr, action: Addr, y: Addr, q: Addr)
    requires Wf(g) && c !in g && (HasSubtype(element.ty, CONST_PERM_POS_ARC) ==> element.end in g)
    ensures RoleArc(g[c := element], ty, relation, action, y, q) <==>
            RoleArc(g, ty, relation, action, y, q)
            || (q == c && y == element.end && y in g && HasSubtype(g[y].ty, ty) && g[y].begin == action
                && HasSubtype(element.ty, CONST_PERM_POS_ARC) && element.begin == relation)
  {
    ArcTypes();
    assert q in g && IsConnector(g[q].ty) ==> g[q].end in g;
  }

  lemma RoleArcsAfter(g: Graph, c: Addr, element: Element, ty: ScType, relation: Addr, action: Addr)
    requires Wf(g) && c !in g && (HasSubtype(element.ty, CONST_PERM_POS_ARC) ==> element.end in g)
    ensures RoleArcs(g[c := element], ty, relation, action) ==
            RoleArcs(g, ty, relation, action)
            + if HasSubtype(element.ty, CONST_PERM_POS_ARC) && element.begin == relation && element.end in g
                 && HasSubtype(g[element.end].ty, ty) && g[element.end].begin == action then {element.end} else {}
  {
    var after := g[c := element];
    forall y, q
      ensures RoleArc(after, ty, relation, action, y, q) <==>
              RoleArc(g, ty, relation, action, y, q)
              || (q == c && y == element.end && y in g && HasSubtype(g[y].ty, ty) && g[y].begin == action
                  && HasSubtype(element.ty, CONST_PERM_POS_ARC) && element.begin == relation)
    {
      RoleArcAfter(g, c, element, ty, relation, action, y, q);
    }
    forall y <- RoleArcs(g, ty, relation, action) ensures y in RoleArcs(after, ty, relation, action) {
      var q :| q in g && RoleArc(g, ty, relation, action, y, q);
      assert q in after && RoleArc(after, ty, relation, action, y, q);
    }
    if HasSubtype(element.ty, CONST_PERM_POS_ARC) && element.begin == relation && element.end in g
       && HasSubtype(g[element.end].ty, ty) && g[element.end].begin == action {
      assert RoleArc(after, ty, relation, action, element.end, c);
    }
  }

  function ListOf(keys: Keynodes): seq<Addr> {
    [keys.initiated, keys.finished, keys.successfully, keys.unsuccessfully, keys.withError, keys.result]
  }

  ghost predicate AllDifferent(list: seq<Addr>) {
    forall i: nat, k: nat :: i < k < |list| ==> list[i] != list[k]
  }

  lemma ListedApart(keys: Keynodes)
    requires AllDifferent(ListOf(keys))
    ensures Distinct(keys)
  {
    var list := ListOf(keys);
    assert list[0] != list[1] && list[0] != list[2] && list[0] != list[3] && list[0] != list[4] && list[0] != list[5];
    assert list[1] != list[2] && list[1] != list[3] && list[1] != list[4] && list[1] != list[5];
    assert list[2] != list[3] && list[2] != list[4] && list[2] != list[5];
    assert list[3] != list[4] && list[3] != list[5] && list[4] != list[5];
  }

  lemma NoArcsOnNew(g: Graph, action: Addr, ty: ScType)
    requires Wf(g) && action != EMPTY && action !in g && !IsConnector(ty)
    ensures
      var after := g[action := Node(ty)];
      && Wf(after)
      && (forall k :: StateArcs(after, k, action) == {})
      && forall kind, relation :: RoleArcs(after, kind, relation, action) == {}
  {
    var after := g[action := Node(ty)];
    forall x <- after ensures after[x].begin != action && after[x].end != action {
      if x in g {
        assert IsConnector(g[x].ty) || g[x].begin == g[x].end == EMPTY;
      }
    }
  }

  // A run begins with a new node beside the keynodes: nothing is said about it yet.
  lemma NewAction(g: Graph, keys: Keynodes, action: Addr, ty: ScType)
    requires Wf(g) && AllDifferent(ListOf(keys)) && forall k <- AllOf(keys) :: k in g && !IsConnector(g[k].ty)
    requires action != EMPTY && action !in g && !IsConnector(ty)
    ensures Lifecycle(g[action := Node(ty)], keys, action)
  {
    ListedApart(keys);
    NoArcsOnNew(g, action, ty);
  }

  // ---- One erasure ----

  lemma NodeStays(g: Graph, r: Addr, a: Addr)
    requires Wf(g) && a in g && !IsConnector(g[a].ty) && a != r
    ensures a !in Cascade(g, {r})
  {
    if a in Cascade(g, {r}) {
      CascadeHangs(g, {r}, a);
    }
  }

  lemma ConnectorStays(g: Graph, r: Addr, x: Addr)
    requires x in g && x != r && g[x].begin !in Cascade(g, {r}) && g[x].end !in Cascade(g, {r})
    ensures x !in Cascade(g, {r})
  {
    if x in Cascade(g, {r}) {
      CascadeHangs(g, {r}, x);
    }
  }

  // The element is no part of what the lifecycle is about.
  ghost predicate Aside(g: Graph, keys: Keynodes, action: Addr, r: Addr) {
    && r !in AllOf(keys) && r != action
    && (forall k <- AllOf(keys) :: r !in StateArcs(g, k, action))
    && forall y, q :: RoleArc(g, CONST_COMMON_ARC, keys.result, action, y, q) ==> r != y && r != q && r != g[y].end
  }

  lemma StateArcsStay(g: Graph, r: Addr, key: Addr, action: Addr)
    requires key !in Cascade(g, {r}) && action !in Cascade(g, {r}) && r !in StateArcs(g, key, action)
    ensures StateArcs(Del(g, {r}), key, action) == StateArcs(g, key, action)
  {
    forall x <- StateArcs(g, key, action) ensures x in StateArcs(Del(g, {r}), key, action) {
      ConnectorStays(g, r, x);
    }
  }

  lemma RoleArcStays(g: Graph, r: Addr, keys: Keynodes, action: Addr, y: Addr, q: Addr)
    requires Wf(g) && RoleArc(g, CONST_COMMON_ARC, keys.result, action, y, q) && r !in {y, q, g[y].end}
    requires keys.result !in Cascade(g, {r}) && action !in Cascade(g, {r})
    requires g[y].end in g && !IsConnector(g[g[y].end].ty)
    ensures RoleArc(Del(g, {r}), CONST_COMMON_ARC, keys.result, action, y, q) && g[y].end in Del(g, {r})
  {
    NodeStays(g, r, g[y].end);
    ConnectorStays(g, r, y);
    ConnectorStays(g, r, q);
  }

  lemma ResultArcsStay(g: Graph, r: Addr, keys: Keynodes, action: Addr)
    requires Wf(g) && ResultsPlaced(g, keys, action) && Aside(g, keys, action, r)
    requires keys.result !in Cascade(g, {r}) && action !in Cascade(g, {r})
    ensures ResultArcs(Del(g, {r}), keys, action) == ResultArcs(g, keys, action)
    ensures ResultsPlaced(Del(g, {r}), keys, action)
  {
    forall y <- ResultArcs(g, keys, action)
      ensures y in ResultArcs(Del(g, {r}), keys, action) && g[y].end in Del(g, {r})
    {
      var q :| q in g && RoleArc(g, CONST_COMMON_ARC, keys.result, action, y, q);
      RoleArcStays(g, r, keys, action, y, q);
    }
  }

  lemma KeysStay(g: Graph, r: Addr, keys: Keynodes, action: Addr)
    requires Placed(g, keys, action) && r !in AllOf(keys) && r != action
    ensures Placed(Del(g, {r}), keys, action)
    ensures action !in Cascade(g, {r}) && forall k <- AllOf(keys) :: k !in Cascade(g, {r})
  {
    DelWf(g, {r});
    NodeStays(g, r, action);
    forall k <- AllOf(keys) ensures k !in Cascade(g, {r}) {
      NodeStays(g, r, k);
    }
  }

  // Whatever else is erased, the lifecycle goes on.
  lemma ErasureAside(g: Graph, r: Addr, keys: Keynodes, action: Addr)
    requires Lifecycle(g, keys, action) && Aside(g, keys, action, r)
    ensures Lifecycle(Del(g, {r}), keys, action)
    ensures forall k <- AllOf(keys) :: StateArcs(Del(g, {r}), k, action) == StateArcs(g, k, action)
    ensures ResultArcs(Del(g, {r}), keys, action) == ResultArcs(g, keys, action)
  {
    KeysStay(g, r, keys, action);
    forall k <- AllOf(keys) ensures StateArcs(Del(g, {r}), k, action) == StateArcs(g, k, action) {
      StateArcsStay(g, r, k, action);
    }
    ResultArcsStay(g, r, keys, action);
    SameStates(g, Del(g, {r}), keys, action);
  }

  lemma SameStates(g: Graph, after: Graph, keys: Keynodes, action: Addr)
    requires forall k <- AllOf(keys) :: StateArcs(after, k, action) == StateArcs(g, k, action)
    ensures StateArcs(after, keys.initiated, action) == StateArcs(g, keys.initiated, action)
    ensures StateArcs(after, keys.finished, action) == StateArcs(g, keys.finished, action)
    ensures EndStates(after, keys, action) == EndStates(g, keys, action)
  {
    assert keys.initiated in AllOf(keys) && keys.finished in AllOf(keys);
    assert keys.successfully in AllOf(keys) && keys.unsuccessfully in AllOf(keys) && keys.withError in AllOf(keys);
  }

  // A new element that is neither a state arc of the action nor a membership arc of its results.
  predicate IsAside(g: Graph, element: Element, keys: Keynodes, action: Addr) {
    HasSubtype(element.ty, CONST_PERM_POS_ARC) ==>
      && element.end in g
      && (element.begin in AllOf(keys) ==> element.end != action)
      && (element.begin == keys.result ==> !HasSubtype(g[element.end].ty, CONST_COMMON_ARC))
  }

  lemma StatesAfterAside(g: Graph, c: Addr, element: Element, keys: Keynodes, action: Addr)
    requires c !in g && IsAside(g, element, keys, action)
    ensures forall k <- AllOf(keys) :: StateArcs(g[c := element], k, action) == StateArcs(g, k, action)
  {
    forall k <- AllOf(keys) ensures StateArcs(g[c := element], k, action) == StateArcs(g, k, action) {
      StateArcsAfter(g, c, element, k, action);
    }
  }

  lemma ResultsAfterAside(g: Graph, c: Addr, element: Element, keys: Keynodes, action: Addr)
    requires Wf(g) && c !in g && IsAside(g, element, keys, action) && ResultsPlaced(g, keys, action)
    ensures ResultArcs(g[c := element], keys, action) == ResultArcs(g, keys, action)
    ensures ResultsPlaced(g[c := element], keys, action)
  {
    RoleArcsAfter(g, c, element, CONST_COMMON_ARC, keys.result, action);
  }

  lemma AdditionAside(g: Graph, c: Addr, element: Element, keys: Keynodes, action: Addr)
    requires Lifecycle(g, keys, action) && c !in g && Wf(g[c := element]) && IsAside(g, element, keys, action)
    ensures Lifecycle(g[c := element], keys, action)
    ensures forall k <- AllOf(keys) :: StateArcs(g[c := element], k, action) == StateArcs(g, k, action)
    ensures ResultArcs(g[c := element], keys, action) == ResultArcs(g, keys, action)
  {
    StatesAfterAside(g, c, element, keys, action);
    ResultsAfterAside(g, c, element, keys, action);
    SameStates(g, g[c := element], keys, action);
  }

  function With(arcs: set<Addr>, isNew: bool, x: Addr): set<Addr> {
    if isNew then arcs + {x} else arcs
  }

  // A new state arc.
  lemma StateAfter(g: Graph, x: Addr, key: Addr, keys: Keynodes, action: Addr)
    requires Placed(g, keys, action) && ResultsPlaced(g, keys, action) && key in AllOf(keys) && x !in g
    requires Wf(g[x := Arc(CONST_PERM_POS_ARC, key, action)])
    ensures
      var after := g[x := Arc(CONST_PERM_POS_ARC, key, action)];
      && Placed(after, keys, action) && ResultsPlaced(after, keys, action)
      && ResultArcs(after, keys, action) == ResultArcs(g, keys, action)
      && StateArcs(after, keys.initiated, action) ==
         With(StateArcs(g, keys.initiated, action), key == keys.initiated, x)
      && StateArcs(after, keys.finished, action) ==
         With(StateArcs(g, keys.finished, action), key == keys.finished, x)
      && StateArcs(after, key, action) == StateArcs(g, key, action) + {x}
      && EndStates(after, keys, action) ==
         With(EndStates(g, keys, action), key in {keys.successfully, keys.unsuccessfully, keys.withError}, x)
  {
    var element := Arc(CONST_PERM_POS_ARC, key, action);
    StateArcsAfter(g, x, element, key, action);
    StateArcsAfter(g, x, element, keys.initiated, action);
    StateArcsAfter(g, x, element, keys.finished, action);
    StateArcsAfter(g, x, element, keys.successfully, action);
    StateArcsAfter(g, x, element, keys.unsuccessfully, action);
    StateArcsAfter(g, x, element, keys.withError, action);
    ArcTypes();
    RoleArcsAfter(g, x, element, CONST_COMMON_ARC, keys.result, action);
  }

  lemma KeysAreThere(keys: Keynodes)
    ensures keys.initiated in AllOf(keys) && keys.finished in AllOf(keys) && keys.result in AllOf(keys)
    ensures keys.successfully in AllOf(keys) && keys.unsuccessfully in AllOf(keys) && keys.withError in AllOf(keys)
  {
  }

  lemma Initiated(g: Graph, x: Addr, keys: Keynodes, action: Addr)
    requires Lifecycle(g, keys, action) && StateArcs(g, keys.initiated, action) == {}
    requires x !in g && Wf(g[x := Arc(CONST_PERM_POS_ARC, keys.initiated, action)])
    ensures
      var after := g[x := Arc(CONST_PERM_POS_ARC, keys.initiated, action)];
      && Lifecycle(after, keys, action) && StateArcs(after, keys.finished, action) == {}
      && StateArcs(after, keys.initiated, action) == {x}
  {
    KeysAreThere(keys);
    StateAfter(g, x, keys.initiated, keys, action);
  }

  // A new membership arc of the relation makes a result of its end.
  lemma ResultAfter(g: Graph, q: Addr, y: Addr, keys: Keynodes, action: Addr)
    requires Placed(g, keys, action) && ResultsPlaced(g, keys, action) && q !in g
    requires y in g && g[y].ty == CONST_COMMON_ARC && g[y].begin == action && y != action
    requires g[y].end in g && !IsConnector(g[g[y].end].ty)
    requires Wf(g[q := Arc(CONST_PERM_POS_ARC, keys.result, y)])
    ensures
      var after := g[q := Arc(CONST_PERM_POS_ARC, keys.result, y)];
      && Placed(after, keys, action) && ResultsPlaced(after, keys, action)
      && ResultArcs(after, keys, action) == ResultArcs(g, keys, action) + {y}
      && forall k <- AllOf(keys) :: StateArcs(after, k, action) == StateArcs(g, k, action)
  {
    var element := Arc(CONST_PERM_POS_ARC, keys.result, y);
    forall k <- AllOf(keys) ensures StateArcs(g[q := element], k, action) == StateArcs(g, k, action) {
      StateArcsAfter(g, q, element, k, action);
    }
    RoleArcsAfter(g, q, element, CONST_COMMON_ARC, keys.result, action);
  }

  lemma SingleOf(s: set<Addr>)
    requires s != {} && |s| <= 1
    ensures |s| == 1
  {
  }

  // Between the arc of the end state and that of the class of finished actions.
  ghost predicate Ended(g: Graph, state: Addr, keys: Keynodes, action: Addr) {
    && Placed(g, keys, action) && ResultsPlaced(g, keys, action)
    && |StateArcs(g, keys.initiated, action)| == 1 && StateArcs(g, keys.finished, action) == {}
    && |EndStates(g, keys, action)| == 1 && |ResultArcs(g, keys, action)| == 1 && StateArcs(g, state, action) != {}
  }

  lemma EndStateAfter(g: Graph, s: Addr, state: Addr, keys: Keynodes, action: Addr)
    requires Lifecycle(g, keys, action) && StateArcs(g, keys.finished, action) == {}
    requires StateArcs(g, keys.initiated, action) != {} && ResultArcs(g, keys, action) != {}
    requires state in {keys.successfully, keys.unsuccessfully, keys.withError}
    requires s !in g && Wf(g[s := Arc(CONST_PERM_POS_ARC, state, action)])
    ensures
      var ended := g[s := Arc(CONST_PERM_POS_ARC, state, action)];
      Ended(ended, state, keys, action) && ResultArcs(ended, keys, action) == ResultArcs(g, keys, action)
  {
    KeysAreThere(keys);
    StateAfter(g, s, state, keys, action);
    SingleOf(StateArcs(g, keys.initiated, action));
    SingleOf(ResultArcs(g, keys, action));
    assert {} + {s} == {s};
  }

  lemma FinishedAfter(g: Graph, f: Addr, state: Addr, keys: Keynodes, action: Addr)
    requires Ended(g, state, keys, action) && state in {keys.successfully, keys.unsuccessfully, keys.withError}
    requires f !in g && Wf(g[f := Arc(CONST_PERM_POS_ARC, keys.finished, action)])
    ensures
      var after := g[f := Arc(CONST_PERM_POS_ARC, keys.finished, action)];
      && Lifecycle(after, keys, action) && ResultArcs(after, keys, action) == ResultArcs(g, keys, action)
      && StateArcs(after, state, action) != {} && StateArcs(after, keys.finished, action) != {}
  {
    KeysAreThere(keys);
    StateAfter(g, f, keys.finished, keys, action);
    StateArcsAfter(g, f, Arc(CONST_PERM_POS_ARC, keys.finished, action), state, action);
    assert {} + {f} == {f};
  }

  // Before the end any erasure is harmless that spares the keynodes, the action and its state arcs.
  lemma ErasureBeforeTheEnd(g: Graph, r: Addr, keys: Keynodes, action: Addr)
    requires Lifecycle(g, keys, action) && StateArcs(g, keys.finished, action) == {}
    requires r !in AllOf(keys) && r != action && forall k <- AllOf(keys) :: r !in StateArcs(g, k, action)
    ensures Lifecycle(Del(g, {r}), keys, action)
    ensures forall k <- AllOf(keys) :: StateArcs(Del(g, {r}), k, action) == StateArcs(g, k, action)
  {
    KeysStay(g, r, keys, action);
    forall k <- AllOf(keys) ensures StateArcs(Del(g, {r}), k, action) == StateArcs(g, k, action) {
      StateArcsStay(g, r, k, action);
    }
    SameStates(g, Del(g, {r}), keys, action);
    FewerResults(g, r, keys, action);
  }

  lemma FewerResults(g: Graph, r: Addr, keys: Keynodes, action: Addr)
    requires Wf(g) && ResultsPlaced(g, keys, action) && |ResultArcs(g, keys, action)| <= 1
    ensures ResultsPlaced(Del(g, {r}), keys, action) && |ResultArcs(Del(g, {r}), keys, action)| <= 1
  {
    DelWf(g, {r});
    forall y <- ResultArcs(Del(g, {r}), keys, action) ensures y in ResultArcs(g, keys, action) {
      var q :| q in Del(g, {r}) && RoleArc(Del(g, {r}), CONST_COMMON_ARC, keys.result, action, y, q);
      assert RoleArc(g, CONST_COMMON_ARC, keys.result, action, y, q);
    }
    SmallSubset(ResultArcs(Del(g, {r}), keys, action), ResultArcs(g, keys, action));
    forall y <- ResultArcs(Del(g, {r}), keys, action)
      ensures g[y].ty == CONST_COMMON_ARC && g[y].end in Del(g, {r}) && !IsConnector(g[g[y].end].ty)
    {
      assert IsConnector(Del(g, {r})[y].ty);
    }
  }

  lemma SmallSubset(a: set<Addr>, b: set<Addr>)
    requires a <= b && |b| <= 1
    ensures |a| <= 1
  {
    if a != {} {
      var x :| x in a;
      assert |b - {x}| == |b| - 1;
      assert b - {x} == {};
      assert a == {x};
    }
  }

  datatype Outcome = Done | InvalidState | InvalidParams

  // A result that memory has already must not differ from one that was set here and is alive.
  ghost predicate MaySettle(g: Graph, set_: Addr, keys: Keynodes, action: Addr) {
    ResultArcs(g, keys, action) == {} || set_ !in g
    || exists y <- ResultArcs(g, keys, action) :: y in g && g[y].end == set_
  }

  // An action that has a result keeps it; one that has none gets the one set last, if that is alive,
  // and a new one otherwise.
  ghost predicate Settled(g: Graph, set_: Addr, after: Graph, result: Addr, keys: Keynodes, action: Addr) {
    if ResultArcs(g, keys, action) != {} then
      result == set_ && ResultArcs(after, keys, action) == ResultArcs(g, keys, action)
    else
      && (forall y <- ResultArcs(after, keys, action) :: y in after && after[y].end == result)
      && if set_ in g then result == set_ else result !in g
  }

  lemma StillSettled(
      g: Graph, set_: Addr, between: Graph, after: Graph, result: Addr, keys: Keynodes, action: Addr)
    requires Settled(g, set_, between, result, keys, action)
    requires ResultArcs(after, keys, action) == ResultArcs(between, keys, action)
    requires forall a <- between :: a in after && after[a] == between[a]
    ensures Settled(g, set_, after, result, keys, action)
  {
  }

  lemma OneResult(g: Graph, keys: Keynodes, action: Addr)
    requires Lifecycle(g, keys, action)
    ensures forall y <- ResultArcs(g, keys, action), z <- ResultArcs(g, keys, action) :: y == z
  {
    forall y <- ResultArcs(g, keys, action), z <- ResultArcs(g, keys, action) ensures y == z {
      AtMostOne(ResultArcs(g, keys, action), y, z);
    }
  }

  lemma AtMostOne(s: set<Addr>, y: Addr, z: Addr)
    requires |s| <= 1 && y in s && z in s
    ensures y == z
  {
    assert |s - {y}| == |s| - 1;
    assert s - {y} == {};
  }

  class ScAction {
    const memory: ScMemory
    const keys: Keynodes
    const action: Addr
    var result: Addr

    constructor (memory: ScMemory, keys: Keynodes, action: Addr)
      ensures this.memory == memory && this.keys == keys && this.action == action && result == EMPTY
    {
      this.memory, this.keys, this.action, result := memory, keys, action, EMPTY;
    }

    ghost predicate Alive()
      reads memory
    {
      Lifecycle(memory.graph, keys, action)
    }

    // What is to become the result is a node and no keynode, as long as it exists.
    ghost predicate ResultIsNode()
      reads this, memory
    {
      result in memory.graph ==> !IsConnector(memory.graph[result].ty) && result != action && result !in AllOf(keys)
    }

    function Has(key: Addr): bool
      reads memory
    {
      StateArcs(memory.graph, key, action) != {}
    }

    // `CheckConnector`
    method IsInitiated() returns (r: bool)
      ensures r <==> Has(keys.initiated)
    {
      r := false;
      if x :| x in memory.graph && StateArc(memory.graph, keys.initiated, action, x) {
        assert x in StateArcs(memory.graph, keys.initiated, action);
        r := true;
      }
    }

    method IsFinished() returns (r: bool)
      ensures r <==> Has(keys.finished)
    {
      r := false;
      if x :| x in memory.graph && StateArc(memory.graph, keys.finished, action, x) {
        assert x in StateArcs(memory.graph, keys.finished, action);
        r := true;
      }
    }

    method Initiate() returns (ok: bool)
      requires Alive()
      modifies memory
      ensures Alive() && (ok <==> !old(Has(keys.initiated)))
      ensures !ok ==> memory.graph == old(memory.graph)
      ensures ok ==> Has(keys.initiated) && !Has(keys.finished)
      ensures ok ==>
                exists x :: x !in old(memory.graph)
                            && memory.graph == old(memory.graph)[x := Arc(CONST_PERM_POS_ARC, keys.initiated, action)]
      ensures old(ResultIsNode()) && (result in old(memory.graph) || result == EMPTY) ==> ResultIsNode()
    {
      var initiated := IsInitiated();
      var finished := IsFinished();
      if initiated || finished {
        return false;
      }
      ghost var g := memory.graph;
      assert keys.initiated in AllOf(keys);
      var x := memory.GenerateConnector(CONST_PERM_POS_ARC, keys.initiated, action);
      Initiated(g, x, keys, action);
      return true;
    }

    // The structure replaces the one set before, which is erased with all that hangs on it.
    method SetResult(structure: Addr) returns (r: Outcome)
      requires Alive() && ResultIsNode()
      requires structure !in AllOf(keys) && structure != action
      requires structure in memory.graph ==> !IsConnector(memory.graph[structure].ty)
      modifies this, memory
      ensures Alive() && ResultIsNode()
      ensures r == InvalidState <==> old(Has(keys.finished))
      ensures r == InvalidParams <==>
              !old(Has(keys.finished)) && structure != old(result) && structure !in old(memory.graph)
      ensures r != Done ==> result == old(result) && memory.graph == old(memory.graph)
      ensures r == Done ==>
                result == structure && (structure in memory.graph <==> structure in old(memory.graph))
                && memory.graph == if old(result) in old(memory.graph) && old(result) != structure
                                   then Del(old(memory.graph), {old(result)}) else old(memory.graph)
    {
      var finished := IsFinished();
      if finished {
        return InvalidState;
      }
      if result == structure {
        return Done;
      }
      if structure !in memory.graph {
        return InvalidParams;
      }
      if result in memory.graph {
        ArcTypes();
        ErasureBeforeTheEnd(memory.graph, result, keys, action);
        NodeStays(memory.graph, result, structure);
        var _ := memory.EraseElement(result);
      }
      result := structure;
      return Done;
    }

    method FindResult() returns (found: bool, addr: Addr)
      requires Wf(memory.graph)
      ensures found <==> ResultArcs(memory.graph, keys, action) != {}
      ensures found ==> exists y <- ResultArcs(memory.graph, keys, action) :: addr == memory.graph[y].end
    {
      if y, q :|
        y in memory.graph && q in memory.graph && RoleArc(memory.graph, CONST_COMMON_ARC, keys.result, action, y, q)
      {
        assert y in ResultArcs(memory.graph, keys, action);
        return true, memory.graph[y].end;
      }
      return false, EMPTY;
    }

    method GetResult() returns (r: Outcome, addr: Addr)
      requires Alive()
      modifies this
      ensures r == InvalidState <==> !Has(keys.initiated) || !Has(keys.finished)
      ensures r != InvalidState ==>
                && r == Done && result == addr
                && exists y <- ResultArcs(memory.graph, keys, action) :: addr == memory.graph[y].end
    {
      addr := EMPTY;
      var initiated := IsInitiated();
      if !initiated {
        return InvalidState, EMPTY;
      }
      var finished := IsFinished();
      if !finished {
        return InvalidState, EMPTY;
      }
      var found;
      found, addr := FindResult();
      result := addr;
      return Done, addr;
    }

    // A new structure when the result set last does not exist (any more).
    method ResolveResult()
      requires Alive() && ResultIsNode()
      modifies this, memory
      ensures Alive() && ResultIsNode() && result in memory.graph
      ensures Has(keys.finished) == old(Has(keys.finished)) && Has(keys.initiated) == old(Has(keys.initiated))
      ensures ResultArcs(memory.graph, keys, action) == old(ResultArcs(memory.graph, keys, action))
      ensures old(result) in old(memory.graph) ==> result == old(result) && memory.graph == old(memory.graph)
      ensures old(result) !in old(memory.graph) ==>
                result !in old(memory.graph) && memory.graph == old(memory.graph)[result := Node(CONST_NODE_STRUCTURE)]
    {
      ghost var g := memory.graph;
      if result !in memory.graph {
        result := memory.GenerateNode(CONST_NODE_STRUCTURE);
        assert CONST_NODE_STRUCTURE | NODE == CONST_NODE_STRUCTURE;
        ArcTypes();
        AdditionAside(g, result, Node(CONST_NODE_STRUCTURE), keys, action);
        SameStates(g, memory.graph, keys, action);
      }
    }

    // The result arc.
    method AttachResult()
      requires Alive() && ResultIsNode() && result in memory.graph
      requires !Has(keys.finished) && ResultArcs(memory.graph, keys, action) == {}
      modifies memory
      ensures Alive()
      ensures Has(keys.finished) == old(Has(keys.finished)) && Has(keys.initiated) == old(Has(keys.initiated))
      ensures ResultArcs(memory.graph, keys, action) != {}
      ensures forall y <- ResultArcs(memory.graph, keys, action) :: memory.graph[y].end == result
    {
      ArcTypes();
      KeysAreThere(keys);
      ghost var g := memory.graph;
      var y := memory.GenerateConnector(CONST_COMMON_ARC, action, result);
      AdditionAside(g, y, Arc(CONST_COMMON_ARC, action, result), keys, action);
      SameStates(g, memory.graph, keys, action);
      ghost var drawn := memory.graph;
      var q := memory.GenerateConnector(CONST_PERM_POS_ARC, keys.result, y);
      ResultAfter(drawn, q, y, keys, action);
      SameStates(drawn, memory.graph, keys, action);
    }

    method EnterState(state: Addr)
      requires Alive() && state in {keys.successfully, keys.unsuccessfully, keys.withError}
      requires Has(keys.initiated) && !Has(keys.finished) && ResultArcs(memory.graph, keys, action) != {}
      modifies memory
      ensures Ended(memory.graph, state, keys, action)
      ensures ResultArcs(memory.graph, keys, action) == old(ResultArcs(memory.graph, keys, action))
      ensures Preserved(old(memory.graph), memory.graph)
    {
      KeysAreThere(keys);
      ghost var g := memory.graph;
      var s := memory.GenerateConnector(CONST_PERM_POS_ARC, state, action);
      EndStateAfter(g, s, state, keys, action);
    }

    method EnterFinished(ghost state: Addr)
      requires Ended(memory.graph, state, keys, action)
      requires state in {keys.successfully, keys.unsuccessfully, keys.withError}
      modifies memory
      ensures Alive() && Has(keys.finished) && Has(state)
      ensures ResultArcs(memory.graph, keys, action) == old(ResultArcs(memory.graph, keys, action))
      ensures Preserved(old(memory.graph), memory.graph)
    {
      KeysAreThere(keys);
      ghost var g := memory.graph;
      var f := memory.GenerateConnector(CONST_PERM_POS_ARC, keys.finished, action);
      FinishedAfter(g, f, state, keys, action);
    }

    method Conclude(state: Addr)
      requires Alive() && state in {keys.successfully, keys.unsuccessfully, keys.withError}
      requires Has(keys.initiated) && !Has(keys.finished) && ResultArcs(memory.graph, keys, action) != {}
      modifies memory
      ensures Alive() && Has(keys.finished) && Has(state)
      ensures ResultArcs(memory.graph, keys, action) == old(ResultArcs(memory.graph, keys, action))
      ensures Preserved(old(memory.graph), memory.graph)
    {
      EnterState(state);
      EnterFinished(state);
    }

    // The second half of `Finish`; what was settled in the first stays so.
    method ConcludeSettled(state: Addr, ghost g: Graph, ghost r: Addr)
      requires Alive() && state in {keys.successfully, keys.unsuccessfully, keys.withError}
      requires Has(keys.initiated) && !Has(keys.finished) && ResultArcs(memory.graph, keys, action) != {}
      requires Settled(g, r, memory.graph, result, keys, action)
      modifies memory
      ensures Alive() && Has(keys.finished) && Has(state)
      ensures Settled(g, r, memory.graph, result, keys, action)
    {
      ghost var settled := memory.graph;
      Conclude(state);
      StillSettled(g, r, settled, memory.graph, result, keys, action);
    }

    method SettleNewResult()
      requires Alive() && ResultIsNode() && !Has(keys.finished) && ResultArcs(memory.graph, keys, action) == {}
      modifies this, memory
      ensures Alive() && !Has(keys.finished) && Has(keys.initiated) == old(Has(keys.initiated))
      ensures ResultArcs(memory.graph, keys, action) != {}
      ensures Settled(old(memory.graph), old(result), memory.graph, result, keys, action)
    {
      ResolveResult();
      AttachResult();
    }

    // The first half of `Finish`.
    method SettleResult() returns (ok: bool)
      requires Alive() && ResultIsNode() && !Has(keys.finished)
      modifies this, memory
      ensures Alive() && !Has(keys.finished) && Has(keys.initiated) == old(Has(keys.initiated))
      ensures ok <==> MaySettle(old(memory.graph), old(result), keys, action)
      ensures !ok ==> memory.graph == old(memory.graph) && result == old(result)
      ensures ok ==> ResultArcs(memory.graph, keys, action) != {}
      ensures ok ==> Settled(old(memory.graph), old(result), memory.graph, result, keys, action)
    {
      var found, addr := FindResult();
      if found {
        OneResult(memory.graph, keys, action);
        return !(result in memory.graph && addr != result);
      }
      SettleNewResult();
      return true;
    }

    // `Finish` with the state that FinishSuccessfully, FinishUnsuccessfully or FinishWithError gives it.
    method Finish(state: Addr) returns (ok: bool)
      requires Alive() && ResultIsNode() && state in {keys.successfully, keys.unsuccessfully, keys.withError}
      modifies this, memory
      ensures Alive()
      ensures ok <==>
              old(Has(keys.initiated)) && !old(Has(keys.finished))
              && MaySettle(old(memory.graph), old(result), keys, action)
      ensures !ok ==> memory.graph == old(memory.graph) && result == old(result)
      ensures ok ==> Has(keys.finished) && Has(state)
      ensures ok ==> Settled(old(memory.graph), old(result), memory.graph, result, keys, action)
    {
      var initiated := IsInitiated();
      if !initiated {
        return false;
      }
      var finished := IsFinished();
      if finished {
        return false;
      }
      ghost var g, r := memory.graph, result;
      ok := SettleResult();
      if !ok {
        return;
      }
      ConcludeSettled(state, g, r);
    }

    // ---- Arguments ----

    function ArgumentArcs(relation: Addr): set<Addr>
      reads memory
    {
      RoleArcs(memory.graph, CONST_PERM_POS_ARC, relation, action)
    }

    method GetArgument(relation: Addr, defaultArgument: Addr) returns (argument: Addr)
      ensures Arguments(memory.graph, relation, action) == {} ==> argument == defaultArgument
      ensures Arguments(memory.graph, relation, action) != {} ==> argument in Arguments(memory.graph, relation, action)
    {
      if y, q :|
        y in memory.graph && q in memory.graph && RoleArc(memory.graph, CONST_PERM_POS_ARC, relation, action, y, q)
      {
        assert y in ArgumentArcs(relation);
        assert memory.graph[y].end in Arguments(memory.graph, relation, action);
        return memory.graph[y].end;
      }
      return defaultArgument;
    }

    // Erases what the relation marks among the arcs of the action.
    method EraseArgument(relation: Addr)
      requires Alive() && relation in memory.graph && !IsConnector(memory.graph[relation].ty) && relation != action
      modifies memory
      ensures Alive() && ArgumentArcs(relation) == {}
      ensures relation in memory.graph && !IsConnector(memory.graph[relation].ty)
      ensures memory.graph == Del(old(memory.graph), old(ArgumentArcs(relation)))
    {
      ghost var g, part := memory.graph, {};
      assert Del(g, {}) == g;
      while true
        invariant Alive() && relation in memory.graph && !IsConnector(memory.graph[relation].ty)
        invariant part <= RoleArcs(g, CONST_PERM_POS_ARC, relation, action) && memory.graph == Del(g, part)
        decreases memory.graph.Keys
      {
        if y, q :|
          y in memory.graph && q in memory.graph && RoleArc(memory.graph, CONST_PERM_POS_ARC, relation, action, y, q)
        {
          ArgumentIsAside(memory.graph, y, q, relation, keys, action);
          NodeStays(memory.graph, y, relation);
          CascadeClosed(memory.graph, {y});
          DelDel(g, part, {y});
          assert RoleArc(g, CONST_PERM_POS_ARC, relation, action, y, q);
          var _ := memory.EraseElement(y);
          part := part + {y};
        } else {
          break;
        }
      }
      ErasedArguments(g, part, relation, action);
    }

    method AddArgument(relation: Addr, argument: Addr) returns (ok: bool)
      requires Alive() && ArgumentArcs(relation) == {} && relation in memory.graph
      requires relation !in AllOf(keys) && relation != action
      modifies memory
      ensures Alive() && (ok <==> argument in old(memory.graph))
      ensures !ok ==> memory.graph == old(memory.graph)
      ensures ok ==> ArgumentAdded(old(memory.graph), memory.graph, relation, argument, action)
    {
      ghost var g := memory.graph;
      var arc := memory.GenerateConnector(CONST_PERM_POS_ARC, action, argument);
      if arc == EMPTY {
        return false;
      }
      ghost var drawn := memory.graph;
      AdditionAside(g, arc, Arc(CONST_PERM_POS_ARC, action, argument), keys, action);
      var q := memory.GenerateConnector(CONST_PERM_POS_ARC, relation, arc);
      AdditionAside(drawn, q, Arc(CONST_PERM_POS_ARC, relation, arc), keys, action);
      NewArgument(g, drawn, memory.graph, relation, argument, arc, q, action);
      return true;
    }

    // False when it throws, because the argument does not exist (any more). What had been there under
    // the relation is gone in either case, with all that hung on it, and nothing else has changed.
    method SetArgument(relation: Addr, argument: Addr) returns (ok: bool)
      requires Alive() && relation in memory.graph && !IsConnector(memory.graph[relation].ty)
      requires relation !in AllOf(keys) && relation != action
      modifies memory
      ensures Alive()
      ensures ok <==>
              argument in old(memory.graph) && argument !in Cascade(old(memory.graph), old(ArgumentArcs(relation)))
      ensures !ok ==>
                memory.graph == Del(old(memory.graph), old(ArgumentArcs(relation))) && ArgumentArcs(relation) == {}
      ensures ok ==>
                ArgumentAdded(
                  Del(old(memory.graph), old(ArgumentArcs(relation))), memory.graph, relation, argument, action)
    {
      EraseArgument(relation);
      ok := AddArgument(relation, argument);
    }
  }

  // Memory has gained the argument's arc and the arc by which the relation marks it, nothing else.
  ghost predicate ArgumentAdded(g: Graph, after: Graph, relation: Addr, argument: Addr, action: Addr) {
    && argument in g
    && exists arc, q ::
         && arc !in g && q !in g && arc != q
         && after == g[arc := Arc(CONST_PERM_POS_ARC, action, argument)][q := Arc(CONST_PERM_POS_ARC, relation, arc)]
         && RoleArcs(after, CONST_PERM_POS_ARC, relation, action) == {arc}
  }

  // The arguments under other relations.
  ghost predicate OthersSame(g: Graph, after: Graph, relation: Addr, action: Addr) {
    forall other, y, q :: other != relation && other != action ==>
      (RoleArc(after, CONST_PERM_POS_ARC, other, action, y, q) <==> RoleArc(g, CONST_PERM_POS_ARC, other, action, y, q))
  }

  // Erasing some of the arcs until none is marked has erased them all: a mark goes only with its arc.
  lemma ErasedArguments(g: Graph, part: set<Addr>, relation: Addr, action: Addr)
    requires Wf(g) && relation in g && !IsConnector(g[relation].ty) && relation != action
    requires part <= RoleArcs(g, CONST_PERM_POS_ARC, relation, action)
    requires RoleArcs(Del(g, part), CONST_PERM_POS_ARC, relation, action) == {}
    ensures Del(g, part) == Del(g, RoleArcs(g, CONST_PERM_POS_ARC, relation, action))
  {
    var all := RoleArcs(g, CONST_PERM_POS_ARC, relation, action);
    ArcTypes();
    CascadeClosed(g, part);
    forall y <- all ensures y in Cascade(g, part) {
      var q :| q in g && RoleArc(g, CONST_PERM_POS_ARC, relation, action, y, q);
      MarkStays(g, part, relation, action, y, q);
    }
    CascadeMonotone(g, all, part);
    CascadeClosed(g, all);
    CascadeMonotone(g, part, all);
  }

  lemma MarkStays(g: Graph, part: set<Addr>, relation: Addr, action: Addr, y: Addr, q: Addr)
    requires Wf(g) && relation in g && !IsConnector(g[relation].ty) && relation != action
    requires part <= RoleArcs(g, CONST_PERM_POS_ARC, relation, action)
    requires RoleArc(g, CONST_PERM_POS_ARC, relation, action, y, q)
    ensures y in Cascade(g, part) || y in RoleArcs(Del(g, part), CONST_PERM_POS_ARC, relation, action)
  {
    ArcTypes();
    NodeSurvives(g, part, relation);
    if y !in Cascade(g, part) {
      if q in Cascade(g, part) {
        CascadeHangs(g, part, q);
      }
      assert RoleArc(Del(g, part), CONST_PERM_POS_ARC, relation, action, y, q);
    }
  }

  // ---- Arguments as a map from relations ----

  function Arguments(g: Graph, relation: Addr, action: Addr): set<Addr> {
    set y <- RoleArcs(g, CONST_PERM_POS_ARC, relation, action) | y in g :: g[y].end
  }

  // An argument that is a node stays under its relation when another relation is set.
  lemma OtherNodeArgumentStays(
      g: Graph, relation: Addr, action: Addr, other: Addr, y: Addr, q: Addr)
    requires Wf(g) && RoleArc(g, CONST_PERM_POS_ARC, other, action, y, q) && other != action
    requires y !in RoleArcs(g, CONST_PERM_POS_ARC, relation, action)
    requires g[y].end in g && !IsConnector(g[g[y].end].ty) && action in g && !IsConnector(g[action].ty)
    requires other in g && !IsConnector(g[other].ty)
    ensures y !in Cascade(g, RoleArcs(g, CONST_PERM_POS_ARC, relation, action))
    ensures q !in Cascade(g, RoleArcs(g, CONST_PERM_POS_ARC, relation, action))
  {
    var roots := RoleArcs(g, CONST_PERM_POS_ARC, relation, action);
    ArcTypes();
    forall a | a in g && !IsConnector(g[a].ty) ensures a !in Cascade(g, roots) {
      if a in Cascade(g, roots) && a !in roots {
        CascadeHangs(g, roots, a);
      }
    }
    if y in Cascade(g, roots) {
      CascadeHangs(g, roots, y);
    }
    if q in Cascade(g, roots) {
      CascadeHangs(g, roots, q);
    }
  }

  lemma NodeSurvives(g: Graph, roots: set<Addr>, a: Addr)
    requires Wf(g) && a in g && !IsConnector(g[a].ty) && a !in roots
    ensures a in Del(g, roots)
  {
    if a in Cascade(g, roots) {
      CascadeHangs(g, roots, a);
    }
  }

  lemma SameRoleArcs(g: Graph, after: Graph, relation: Addr, action: Addr, other: Addr)
    requires OthersSame(g, after, relation, action) && other !in {relation, action}
    ensures RoleArcs(after, CONST_PERM_POS_ARC, other, action) == RoleArcs(g, CONST_PERM_POS_ARC, other, action)
  {
    forall y, q |
      RoleArc(g, CONST_PERM_POS_ARC, other, action, y, q) || RoleArc(after, CONST_PERM_POS_ARC, other, action, y, q)
      ensures y in RoleArcs(g, CONST_PERM_POS_ARC, other, action)
      ensures y in RoleArcs(after, CONST_PERM_POS_ARC, other, action)
    {
      assert RoleArc(g, CONST_PERM_POS_ARC, other, action, y, q);
      assert RoleArc(after, CONST_PERM_POS_ARC, other, action, y, q);
    }
  }

  // Another relation, under which there are nodes.
  ghost predicate Other(g: Graph, relation: Addr, action: Addr, other: Addr) {
    && relation in g && !IsConnector(g[relation].ty) && relation != action
    && other in g && !IsConnector(g[other].ty) && other !in {relation, action}
    && forall y <- RoleArcs(g, CONST_PERM_POS_ARC, other, action) :: g[y].end in g && !IsConnector(g[g[y].end].ty)
  }

  lemma ArgumentsInDel(g: Graph, relation: Addr, action: Addr, other: Addr)
    requires Wf(g) && action in g && !IsConnector(g[action].ty) && Other(g, relation, action, other)
    ensures
      var theirs := RoleArcs(g, CONST_PERM_POS_ARC, other, action);
      var ours := RoleArcs(g, CONST_PERM_POS_ARC, relation, action);
      && RoleArcs(Del(g, ours), CONST_PERM_POS_ARC, other, action) == theirs - ours
      && forall y <- theirs - ours :: y in Del(g, ours) && Del(g, ours)[y] == g[y]
  {
    var theirs := RoleArcs(g, CONST_PERM_POS_ARC, other, action);
    var ours := RoleArcs(g, CONST_PERM_POS_ARC, relation, action);
    var base := Del(g, ours);
    CascadeClosed(g, ours);
    forall y <- theirs - ours ensures y in base && y in RoleArcs(base, CONST_PERM_POS_ARC, other, action) {
      var q :| q in g && RoleArc(g, CONST_PERM_POS_ARC, other, action, y, q);
      OtherNodeArgumentStays(g, relation, action, other, y, q);
      assert RoleArc(base, CONST_PERM_POS_ARC, other, action, y, q);
    }
    forall y <- RoleArcs(base, CONST_PERM_POS_ARC, other, action) ensures y in theirs - ours {
      var q :| q in base && RoleArc(base, CONST_PERM_POS_ARC, other, action, y, q);
      assert RoleArc(g, CONST_PERM_POS_ARC, other, action, y, q);
    }
  }

  // Setting one relation, whether it succeeds or throws, takes from another that has nodes under it
  // exactly the arcs that both relations mark; the rest stay, with their values.
  lemma OtherArgumentsStay(g: Graph, after: Graph, relation: Addr, argument: Addr, action: Addr, other: Addr)
    requires Wf(g) && Wf(after) && action in g && !IsConnector(g[action].ty) && Other(g, relation, action, other)
    requires
      var base := Del(g, RoleArcs(g, CONST_PERM_POS_ARC, relation, action));
      after == base || ArgumentAdded(base, after, relation, argument, action)
    ensures RoleArcs(after, CONST_PERM_POS_ARC, other, action) ==
            RoleArcs(g, CONST_PERM_POS_ARC, other, action) - RoleArcs(g, CONST_PERM_POS_ARC, relation, action)
    ensures forall y <- RoleArcs(after, CONST_PERM_POS_ARC, other, action) :: y in g && y in after && after[y] == g[y]
  {
    var roots := RoleArcs(g, CONST_PERM_POS_ARC, relation, action);
    var base := Del(g, roots);
    NodeSurvives(g, roots, action);
    ArgumentsInDel(g, relation, action, other);
    if after != base {
      DelWf(g, roots);
      OthersSameAfter(base, after, relation, argument, action);
      SameRoleArcs(base, after, relation, action, other);
    }
  }

  // No arc of the action is marked by both.
  ghost predicate Apart(g: Graph, relation: Addr, action: Addr, other: Addr) {
    RoleArcs(g, CONST_PERM_POS_ARC, other, action) !! RoleArcs(g, CONST_PERM_POS_ARC, relation, action)
  }

  lemma SameArguments(g: Graph, after: Graph, relation: Addr, action: Addr)
    requires RoleArcs(after, CONST_PERM_POS_ARC, relation, action) == RoleArcs(g, CONST_PERM_POS_ARC, relation, action)
    requires forall y <- RoleArcs(after, CONST_PERM_POS_ARC, relation, action) ::
               y in g && y in after && after[y] == g[y]
    ensures Arguments(after, relation, action) == Arguments(g, relation, action)
  {
  }

  lemma ArgumentsAfterSetting(
      g: Graph, after: Graph, ok: bool, relation: Addr, argument: Addr, keys: Keynodes, action: Addr, other: Addr)
    requires Placed(g, keys, action) && Placed(after, keys, action)
    requires Other(g, relation, action, other) && Apart(g, relation, action, other)
    requires
      var base := Del(g, RoleArcs(g, CONST_PERM_POS_ARC, relation, action));
      if ok then ArgumentAdded(base, after, relation, argument, action)
      else after == base && RoleArcs(after, CONST_PERM_POS_ARC, relation, action) == {}
    ensures ok ==> argument in Arguments(after, relation, action) && Arguments(after, relation, action) == {argument}
    ensures !ok ==> Arguments(after, relation, action) == {}
    ensures Arguments(after, other, action) == Arguments(g, other, action)
  {
    OtherArgumentsStay(g, after, relation, argument, action, other);
    SameArguments(g, after, other, action);
    if ok {
      OnlyArgument(Del(g, RoleArcs(g, CONST_PERM_POS_ARC, relation, action)), after, relation, argument, action);
    }
  }

  // What SetArgument does to the arguments under the relation and under another one.
  method SetApart(action: ScAction, relation: Addr, argument: Addr, ghost other: Addr) returns (ok: bool)
    requires action.Alive() && relation !in AllOf(action.keys)
    requires Other(action.memory.graph, relation, action.action, other)
    requires Apart(action.memory.graph, relation, action.action, other)
    modifies action.memory
    ensures Arguments(action.memory.graph, relation, action.action) == if ok then {argument} else {}
    ensures Arguments(action.memory.graph, other, action.action)
            == old(Arguments(action.memory.graph, other, action.action))
  {
    ghost var g := action.memory.graph;
    ok := action.SetArgument(relation, argument);
    ArgumentsAfterSetting(g, action.memory.graph, ok, relation, argument, action.keys, action.action, other);
  }

  // `SetArgument` and `GetArgument` together: what is set is what is found under the relation, and
  // what another relation yields is what it would have yielded before.
  method SetThenGet(action: ScAction, relation: Addr, argument: Addr, other: Addr, defaultArgument: Addr)
    returns (ok: bool, own: Addr, others: Addr)
    requires action.Alive() && relation !in AllOf(action.keys)
    requires Other(action.memory.graph, relation, action.action, other)
    requires Apart(action.memory.graph, relation, action.action, other)
    modifies action.memory
    ensures own == if ok then argument else defaultArgument
    ensures
      var was := old(Arguments(action.memory.graph, other, action.action));
      if was == {} then others == defaultArgument else others in was
  {
    ok := SetApart(action, relation, argument, other);
    own := GetOnly(action, relation, if ok then {argument} else {}, defaultArgument);
    others := GetOnly(action, other, old(Arguments(action.memory.graph, other, action.action)), defaultArgument);
  }

  method GetOnly(action: ScAction, relation: Addr, ghost arguments: set<Addr>, defaultArgument: Addr)
    returns (argument: Addr)
    requires Arguments(action.memory.graph, relation, action.action) == arguments
    ensures if arguments == {} then argument == defaultArgument else argument in arguments
  {
    argument := action.GetArgument(relation, defaultArgument);
  }

  lemma OnlyArgument(g: Graph, after: Graph, relation: Addr, argument: Addr, action: Addr)
    requires ArgumentAdded(g, after, relation, argument, action)
    ensures Arguments(after, relation, action) == {argument}
  {
    var arc, q :|
      && arc !in g && q !in g && arc != q
      && after == g[arc := Arc(CONST_PERM_POS_ARC, action, argument)][q := Arc(CONST_PERM_POS_ARC, relation, arc)]
      && RoleArcs(after, CONST_PERM_POS_ARC, relation, action) == {arc};
    assert after[arc].end == argument;
  }

  lemma ArgumentIsAside(g: Graph, y: Addr, q: Addr, relation: Addr, keys: Keynodes, action: Addr)
    requires Lifecycle(g, keys, action) && RoleArc(g, CONST_PERM_POS_ARC, relation, action, y, q)
    ensures Lifecycle(Del(g, {y}), keys, action)
  {
    ArcTypes();
    forall r, p | RoleArc(g, CONST_COMMON_ARC, keys.result, action, r, p) ensures y != r && y != p && y != g[r].end {
      assert r in ResultArcs(g, keys, action);
    }
    ErasureAside(g, y, keys, action);
  }

  lemma NewArgument(
      g: Graph, drawn: Graph, after: Graph, relation: Addr, argument: Addr, arc: Addr, q: Addr, action: Addr)
    requires Wf(g) && RoleArcs(g, CONST_PERM_POS_ARC, relation, action) == {} && relation != action
    requires arc !in g && drawn == g[arc := Arc(CONST_PERM_POS_ARC, action, argument)] && Wf(drawn)
    requires argument in g && action in g && q !in drawn && after == drawn[q := Arc(CONST_PERM_POS_ARC, relation, arc)]
    ensures ArgumentAdded(g, after, relation, argument, action)
  {
    RoleArcsAfter(g, arc, Arc(CONST_PERM_POS_ARC, action, argument), CONST_PERM_POS_ARC, relation, action);
    RoleArcsAfter(drawn, q, Arc(CONST_PERM_POS_ARC, relation, arc), CONST_PERM_POS_ARC, relation, action);
    assert RoleArcs(after, CONST_PERM_POS_ARC, relation, action) == {arc};
  }

  lemma OneArcMore(g: Graph, arc: Addr, begin: Addr, end: Addr)
    requires Wf(g) && arc !in g && begin in g && end in g && arc != EMPTY
    ensures Wf(g[arc := Arc(CONST_PERM_POS_ARC, begin, end)])
  {
    ArcTypes();
    assert ConnectorType(CONST_PERM_POS_ARC);
  }

  lemma OthersSameAfter(g: Graph, after: Graph, relation: Addr, argument: Addr, action: Addr)
    requires Wf(g) && Wf(after) && action in g && ArgumentAdded(g, after, relation, argument, action)
    ensures OthersSame(g, after, relation, action) && Preserved(g, after)
  {
    var arc, q :|
      && arc !in g && q !in g && arc != q
      && after == g[arc := Arc(CONST_PERM_POS_ARC, action, argument)][q := Arc(CONST_PERM_POS_ARC, relation, arc)]
      && RoleArcs(after, CONST_PERM_POS_ARC, relation, action) == {arc};
    var drawn := g[arc := Arc(CONST_PERM_POS_ARC, action, argument)];
    assert arc in after && q in after;
    OneArcMore(g, arc, action, argument);
    forall other, y, p | other != relation && other != action
      ensures RoleArc(after, CONST_PERM_POS_ARC, other, action, y, p) <==>
              RoleArc(g, CONST_PERM_POS_ARC, other, action, y, p)
    {
      NewArcIsNoArgument(g, arc, argument, action, other, y, p);
      RoleArcAfter(drawn, q, Arc(CONST_PERM_POS_ARC, relation, arc), CONST_PERM_POS_ARC, other, action, y, p);
    }
  }

  // The new arc marks nothing, although it begins at the action, unless the action marked arguments
  // of its own.
  lemma NewArcIsNoArgument(g: Graph, arc: Addr, argument: Addr, action: Addr, other: Addr, y: Addr, p: Addr)
    requires Wf(g) && arc !in g && argument in g
    ensures
      var drawn := g[arc := Arc(CONST_PERM_POS_ARC, action, argument)];
      RoleArc(drawn, CONST_PERM_POS_ARC, other, action, y, p) <==>
      RoleArc(g, CONST_PERM_POS_ARC, other, action, y, p)
      || (other == action && p == arc && y == argument
          && HasSubtype(g[y].ty, CONST_PERM_POS_ARC) && g[y].begin == action)
  {
    RoleArcAfter(g, arc, Arc(CONST_PERM_POS_ARC, action, argument), CONST_PERM_POS_ARC, other, action, y, p);
  }
}
