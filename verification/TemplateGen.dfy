// ScTemplateGenerator of sc_template_gen.cpp.
module TemplateGen {
  import opened ScTypes
  import opened ScGraph
  import opened ScRollback
  import opened ScText
  import opened TemplateItems
  import opened Wrappers

  type Params = map<string, Addr>

  // System identifiers of the elements that exist before the generation, and back.
  datatype SystemNames = SystemNames(byAddr: map<Addr, string>, byName: map<string, Addr>)

  const MAX_HASH: nat := 0xFFFFFFFF

  // A name that spells the hash of an address.
  function HashOf(name: string): Addr {
    if name != "" && AllDigits(name) && ValueOf(name) <= MAX_HASH then Addr(ValueOf(name)) else EMPTY
  }

  // `GetAddrFromParams`
  function ParamOf(names: SystemNames, params: Params, g: Graph, name: string): Addr {
    if name in params then params[name]
    else
      var a := HashOf(name);
      if a == EMPTY || a !in g then EMPTY
      else
        var identifier := if a in names.byAddr then names.byAddr[a] else "";
        if identifier in params then params[identifier] else EMPTY
  }

  // What parameters or the item itself fix.
  function Given(names: SystemNames, params: Params, g: Graph, item: Item): Addr {
    var fromParams := if params != map[] && item.name != "" then ParamOf(names, params, g, item.name) else EMPTY;
    if fromParams != EMPTY then fromParams
    else if item.kind == AddrItem then item.addr
    else EMPTY
  }

  // `TryFindElementReplacement`
  function Replacement(
      names: SystemNames, params: Params, positions: map<string, nat>, g: Graph, item: Item, result: seq<Addr>): Addr
  {
    var given := Given(names, params, g, item);
    if given != EMPTY then given
    else if item.kind == ReplaceItem && item.name in positions && positions[item.name] < |result|
    then result[positions[item.name]]
    else EMPTY
  }

  // `CheckIncidenceBetweenConnectorAndIncidentElements`, with the lookup that precedes it.
  predicate Incident(g: Graph, params: Params, connector: Addr, source: Item, target: Item) {
    && connector in g && IsConnector(g[connector].ty)
    && (source.kind == AddrItem ==> source.addr == g[connector].begin)
    && (source.name in params && source.name != "" ==> params[source.name] == g[connector].begin)
    && (target.kind == AddrItem ==> target.addr == g[connector].end)
    && (target.name in params && target.name != "" ==> params[target.name] == g[connector].end)
  }

  // Types that `GenerateNode` and `GenerateLink` take: nodes, or no more than a constancy.
  predicate NodeLike(ty: ScType) { HasSubtype(ty, NODE) || ty == CONST || ty == VAR || ty == UNKNOWN }

  // The items of a triple with the addresses found for them.
  datatype Found = Found(source: Addr, connector: Addr, target: Addr)

  predicate EndFails(item: Item, found: Addr) {
    item.kind == TypeItem && (item.ty == UNKNOWN || (IsConnector(item.ty) && found == EMPTY))
  }

  // ---- When a triple throws ----

  // An end must have a type, and no connector can be made for it.
  ghost predicate EndRefused(item: Item, found: Addr) {
    item.kind == TypeItem && (item.ty == UNKNOWN || (item.ty & CONNECTOR != 0 && found == EMPTY))
  }

  // What was found for the end does not exist, or what is to be made for it is no node and more than a
  // constancy.
  ghost predicate EndLacking(g: Graph, item: Item, found: Addr) {
    if found == EMPTY then item.ty & NODE == 0 && item.ty & ANY_BUT_CONSTANCY != 0 else found !in g
  }

  // The end of a connector is the address of the item and the parameter under its name.
  ghost predicate EndAgrees(params: Params, item: Item, end: Addr) {
    && (item.kind == AddrItem ==> item.addr == end)
    && (item.name != "" && item.name in params ==> params[item.name] == end)
  }

  // A connector between ends that agree with both items.
  ghost predicate Agrees(g: Graph, params: Params, connector: Addr, source: Item, target: Item) {
    && connector in g && g[connector].ty & CONNECTOR != 0
    && EndAgrees(params, source, g[connector].begin) && EndAgrees(params, target, g[connector].end)
  }

  // When a triple throws ExceptionInvalidParams.
  ghost predicate Fails(g: Graph, params: Params, source: Item, connector: Item, target: Item, found: Found) {
    || EndRefused(source, found.source) || EndRefused(target, found.target)
    || (connector.kind == TypeItem && connector.ty == UNKNOWN)
    || if found.connector != EMPTY then !Agrees(g, params, found.connector, source, target)
       else connector.ty & CONNECTOR == 0 || EndLacking(g, source, found.source) || EndLacking(g, target, found.target)
  }

  lemma ConnectorBit(ty: ScType)
    ensures IsConnector(ty) <==> ty & CONNECTOR != 0
  {
  }

  lemma NodeLikeIs(ty: ScType)
    ensures NodeLike(UpConst(ty)) <==> ty & NODE != 0 || ty & ANY_BUT_CONSTANCY == 0
  {
  }

  lemma IncidentIs(g: Graph, params: Params, connector: Addr, source: Item, target: Item)
    ensures Incident(g, params, connector, source, target) <==> Agrees(g, params, connector, source, target)
  {
    if connector in g {
      ConnectorBit(g[connector].ty);
    }
  }

  lemma EndFailsIs(item: Item, found: Addr)
    ensures EndFails(item, found) <==> EndRefused(item, found)
  {
    ConnectorBit(item.ty);
  }

  // No end dangles. (The address of an erased element may be handed out again to the other end.)
  predicate Known(g: Graph, found: Found) {
    && (found.source == EMPTY || found.source in g)
    && (found.target == EMPTY || found.target in g)
  }

  predicate Joined(g: Graph, source: Addr, connector: Addr, target: Addr) {
    && connector in g && IsConnector(g[connector].ty)
    && g[connector].begin == source && g[connector].end == target
  }

  ghost function NodeFor(item: Item): Element { Node(UpConst(item.ty) | NODE) }

  // An end of a fresh connector: the element found, or else a new node.
  ghost predicate Placed(g: Graph, after: Graph, node: Element, found: Addr, a: Addr) {
    if found != EMPTY then a == found else a !in g && a in after && after[a] == node
  }

  // What a triple that does not throw leaves in memory: a given connector as it is, or a new one between
  // the elements found and new nodes of the constant types.
  ghost predicate Written(
      g: Graph, after: Graph, source: Item, connector: Item, target: Item, found: Found, r: Found)
  {
    WrittenAs(g, after, NodeFor(source), UpConst(connector.ty), NodeFor(target), found, r)
  }

  ghost predicate WrittenAs(
      g: Graph, after: Graph, source: Element, ty: ScType, target: Element, found: Found, r: Found)
  {
    && Joined(after, r.source, r.connector, r.target)
    && if found.connector != EMPTY then r.connector == found.connector && after == g
       else
         && r.connector !in g && after[r.connector].ty == ty
         && Placed(g, after, source, found.source, r.source) && Placed(g, after, target, found.target, r.target)
         && (found.source == EMPTY && found.target == EMPTY ==> r.source != r.target)
         && r.connector !in {r.source, r.target}
         && after.Keys == g.Keys + {r.connector}
                          + (if found.source == EMPTY then {r.source} else {})
                          + (if found.target == EMPTY then {r.target} else {})
  }

  // ---- The check of the parameters ----

  // The position of the item a parameter is for, by its name or by that of its variable.
  function ParamPosition(names: SystemNames, positions: map<string, nat>, name: string): Option<nat> {
    if name in positions then Some(positions[name])
    else if name !in names.byName || names.byName[name] == EMPTY then None
    else
      var hash := Decimal(names.byName[name].hash);
      if hash in positions then Some(positions[hash]) else None
  }

  predicate ParamFits(
      names: SystemNames, positions: map<string, nat>, items: seq<Item>, params: Params,
      canExtendTo: (ScType, ScType) -> bool, g: Graph, name: string)
    requires |items| % 3 == 0 && name in params
  {
    var position, value := ParamPosition(names, positions, name), params[name];
    && position.Some? && position.value < |items|
    && (position.value % 3 == 1 ==> Incident(g, params, value, items[position.value - 1], items[position.value + 1]))
    && value in g
    && var ty := items[position.value].ty;
       canExtendTo(UpConst(ty), g[value].ty) || (HasSubtype(ty, NODE) && IsConnector(g[value].ty))
  }

  // The item that a parameter is for: the one of its name, or the one that is named by the hash of the
  // variable with this identifier.
  ghost predicate ItemFor(names: SystemNames, positions: map<string, nat>, name: string, p: nat) {
    if name in positions then positions[name] == p
    else
      exists hash: string ::
        && hash in positions && positions[hash] == p && AllDigits(hash)
        && name in names.byName && names.byName[name] != EMPTY && hash == Decimal(names.byName[name].hash)
  }

  // The value exists; a connector joins what stands at its ends; and the constant form of the type of the
  // item can be extended to that of the value, unless a connector stands for a node.
  ghost predicate FitsItem(
      items: seq<Item>, params: Params, canExtendTo: (ScType, ScType) -> bool, g: Graph, p: nat, value: Addr)
    requires |items| % 3 == 0 && p < |items|
  {
    && value in g
    && (p % 3 == 1 ==> Agrees(g, params, value, items[p - 1], items[p + 1]))
    && ((exists made :: MadeConstant(items[p].ty, made, false) && canExtendTo(made, g[value].ty))
        || (items[p].ty & NODE != 0 && g[value].ty & CONNECTOR != 0))
  }

  ghost predicate Fitting(
      names: SystemNames, positions: map<string, nat>, items: seq<Item>, params: Params,
      canExtendTo: (ScType, ScType) -> bool, g: Graph, name: string)
    requires |items| % 3 == 0 && name in params
  {
    exists p: nat ::
      p < |items| && ItemFor(names, positions, name, p) && FitsItem(items, params, canExtendTo, g, p, params[name])
  }

  lemma PositionIs(names: SystemNames, positions: map<string, nat>, name: string, p: nat)
    ensures ParamPosition(names, positions, name) == Some(p) <==> ItemFor(names, positions, name, p)
  {
    if name !in positions && name in names.byName && Decimal(names.byName[name].hash) in positions {
      assert AllDigits(Decimal(names.byName[name].hash));
    }
  }

  lemma NodeBit(ty: ScType)
    ensures HasSubtype(ty, NODE) <==> ty & NODE != 0
  {
  }

  lemma TypeExtends(ty: ScType, canExtendTo: (ScType, ScType) -> bool, to: ScType)
    ensures canExtendTo(UpConst(ty), to) <==> exists made :: MadeConstant(ty, made, false) && canExtendTo(made, to)
  {
    ConstantForm(ty);
    if made :| MadeConstant(ty, made, false) && canExtendTo(made, to) {
      ConstantFormIsUnique(ty, made);
    }
  }

  lemma FitsIs(
      names: SystemNames, positions: map<string, nat>, items: seq<Item>, params: Params,
      canExtendTo: (ScType, ScType) -> bool, g: Graph, name: string)
    requires |items| % 3 == 0 && name in params
    ensures ParamFits(names, positions, items, params, canExtendTo, g, name) <==>
            Fitting(names, positions, items, params, canExtendTo, g, name)
  {
    var value := params[name];
    forall p: nat ensures ParamPosition(names, positions, name) == Some(p) <==> ItemFor(names, positions, name, p) {
      PositionIs(names, positions, name, p);
    }
    var position := ParamPosition(names, positions, name);
    if position.Some? && position.value < |items| && value in g {
      var p := position.value;
      FitsItemIs(items, params, canExtendTo, g, p, value);
    }
  }

  lemma FitsItemIs(
      items: seq<Item>, params: Params, canExtendTo: (ScType, ScType) -> bool, g: Graph, p: nat, value: Addr)
    requires |items| % 3 == 0 && p < |items| && value in g
    ensures FitsItem(items, params, canExtendTo, g, p, value) <==>
            && (p % 3 == 1 ==> Incident(g, params, value, items[p - 1], items[p + 1]))
            && (canExtendTo(UpConst(items[p].ty), g[value].ty)
                || (HasSubtype(items[p].ty, NODE) && IsConnector(g[value].ty)))
  {
    NodeBit(items[p].ty);
    ConnectorBit(g[value].ty);
    TypeExtends(items[p].ty, canExtendTo, g[value].ty);
    if p % 3 == 1 {
      IncidentIs(g, params, value, items[p - 1], items[p + 1]);
    }
  }

  // ---- Embedding ----

  ghost predicate AllJoined(g: Graph, result: seq<Addr>, k: nat) {
    3 * k <= |result| && forall i: nat :: i < k ==> Joined(g, result[3 * i], result[3 * i + 1], result[3 * i + 2])
  }

  // Given elements exist, connectors are fresh typed items, replacements name items of earlier
  // triples, and no parameter is filed under the empty name.
  ghost predicate Sound(
      names: SystemNames, params: Params, positions: map<string, nat>, items: seq<Item>, base: Graph)
  {
    && "" !in params && names.byAddr.Keys <= base.Keys
    && forall p: nat :: p < |items| ==>
         SoundItem(positions, items, base, p, Given(names, params, base, items[p]))
  }

  ghost predicate SoundItem(positions: map<string, nat>, items: seq<Item>, base: Graph, p: nat, given: Addr)
    requires p < |items|
  {
    && (given != EMPTY ==> given in base)
    && (p % 3 == 1 ==> items[p].kind == TypeItem && given == EMPTY)
    && (items[p].kind == ReplaceItem && given == EMPTY ==>
          items[p].name in positions && positions[items[p].name] < p - p % 3)
  }

  // Nothing in the types stands in the way either.
  ghost predicate Realizable(
      names: SystemNames, params: Params, positions: map<string, nat>, items: seq<Item>, base: Graph)
  {
    && Sound(names, params, positions, items, base)
    && forall p: nat :: p < |items| ==> RealizableItem(items[p], p, Given(names, params, base, items[p]))
  }

  ghost predicate RealizableItem(item: Item, p: nat, given: Addr) {
    if p % 3 == 1 then IsConnector(item.ty)
    else item.kind == TypeItem ==>
           && item.ty != UNKNOWN && (IsConnector(item.ty) ==> given != EMPTY)
           && (given == EMPTY ==> item.ty & NODE != 0 || item.ty & ANY_BUT_CONSTANCY == 0)
  }

  // ---- Runs ----

  // Memory has gained what the triple needed and nothing else.
  ghost predicate OnlyAdds(g: Graph, after: Graph, r: Found) {
    Preserved(g, after) && after.Keys == g.Keys + {r.source, r.connector, r.target}
  }

  function Unfilled(n: nat): (result: seq<Addr>)
    ensures |result| == n
  {
    seq(n, _ => EMPTY)
  }

  // Triple `k` does not throw, and this is what it leaves.
  ghost predicate Step(
      names: SystemNames, params: Params, positions: map<string, nat>, items: seq<Item>, g: Graph, result: seq<Addr>,
      k: nat, after: Graph, filled: seq<Addr>, r: Found)
  {
    && |result| == |items| && 3 * k + 2 < |items|
    && Written(
         g, after, items[3 * k], items[3 * k + 1], items[3 * k + 2],
         Lookups(names, params, positions, items, g, result, k), r)
    && OnlyAdds(g, after, r) && filled == Filled(result, k, r)
  }

  // Memory, and the addresses filled in so far.
  datatype State = State(g: Graph, result: seq<Addr>)

  ghost predicate MayStep(
      names: SystemNames, params: Params, positions: map<string, nat>, items: seq<Item>, k: nat, from: State, to: State)
  {
    exists r: Found :: Step(names, params, positions, items, from.g, from.result, k, to.g, to.result, r)
  }

  // The states between the triples of a run.
  ghost predicate IsRun(
      names: SystemNames, params: Params, positions: map<string, nat>, items: seq<Item>, base: Graph,
      states: seq<State>)
  {
    && states != [] && states[0] == State(base, Unfilled(|items|))
    && forall k: nat, next: nat :: k + 1 == next < |states| ==>
         MayStep(names, params, positions, items, k, states[k], states[next])
  }

  function Last(states: seq<State>): State
    requires states != []
  {
    states[|states| - 1]
  }

  ghost predicate FailsAt(
      names: SystemNames, params: Params, positions: map<string, nat>, items: seq<Item>, state: State, k: nat)
  {
    && |state.result| == |items| && 3 * k + 2 < |items|
    && Fails(
         state.g, params, items[3 * k], items[3 * k + 1], items[3 * k + 2],
         Lookups(names, params, positions, items, state.g, state.result, k))
  }

  // Some run through well-formed memories comes to a triple that throws.
  ghost predicate FailsSomewhere(
      names: SystemNames, params: Params, positions: map<string, nat>, items: seq<Item>, base: Graph)
  {
    exists states ::
      && IsRun(names, params, positions, items, base, states) && Wf(Last(states).g)
      && FailsAt(names, params, positions, items, Last(states), |states| - 1)
  }

  // Some run ends like this.
  ghost predicate Reached(
      names: SystemNames, params: Params, positions: map<string, nat>, items: seq<Item>, base: Graph, g: Graph,
      result: seq<Addr>)
  {
    exists states ::
      && IsRun(names, params, positions, items, base, states)
      && |states| - 1 == |items| / 3 && Last(states) == State(g, result)
  }

  lemma StepInRun(
      names: SystemNames, params: Params, positions: map<string, nat>, items: seq<Item>, base: Graph,
      states: seq<State>, k: nat)
    returns (r: Found)
    requires IsRun(names, params, positions, items, base, states) && k + 1 < |states|
    ensures Step(
              names, params, positions, items, states[k].g, states[k].result, k, states[k + 1].g,
              states[k + 1].result, r)
  {
    var next := k + 1;
    assert MayStep(names, params, positions, items, k, states[k], states[next]);
    r :|
      Step(names, params, positions, items, states[k].g, states[k].result, k, states[next].g, states[next].result, r);
  }

  lemma StepKeeps(
      names: SystemNames, params: Params, positions: map<string, nat>, items: seq<Item>, base: Graph, from: State,
      to: State, k: nat, r: Found)
    requires Step(names, params, positions, items, from.g, from.result, k, to.g, to.result, r)
    requires AllJoined(from.g, from.result, k) && Extends(base, from.g, from.g.Keys - base.Keys)
    ensures |to.result| == |items| && AllJoined(to.g, to.result, k + 1)
    ensures Extends(base, to.g, to.g.Keys - base.Keys)
  {
    JoinedStep(from.g, to.g, from.result, k, r);
  }

  // What every run keeps.
  lemma {:induction false} RunKeeps(
      names: SystemNames, params: Params, positions: map<string, nat>, items: seq<Item>, base: Graph,
      states: seq<State>, k: nat)
    requires IsRun(names, params, positions, items, base, states) && k < |states|
    ensures |states[k].result| == |items| && 3 * k <= |items| && AllJoined(states[k].g, states[k].result, k)
    ensures Extends(base, states[k].g, states[k].g.Keys - base.Keys)
    decreases k
  {
    if k > 0 {
      RunKeeps(names, params, positions, items, base, states, k - 1);
      var r := StepInRun(names, params, positions, items, base, states, k - 1);
      StepKeeps(names, params, positions, items, base, states[k - 1], states[k], k - 1, r);
    }
  }

  lemma OneStepMore(
      names: SystemNames, params: Params, positions: map<string, nat>, items: seq<Item>, base: Graph,
      states: seq<State>, to: State)
    requires IsRun(names, params, positions, items, base, states)
    requires MayStep(names, params, positions, items, |states| - 1, Last(states), to)
    ensures IsRun(names, params, positions, items, base, states + [to])
  {
  }

  // Each address of the result is the one given for its item, or that of the item it repeats, or a
  // new element of the constant type.
  ghost predicate Embedded(
      positions: map<string, nat>, items: seq<Item>, given: Addr, base: Graph, g: Graph, result: seq<Addr>, p: nat)
    requires p < |items| == |result|
  {
    var item := items[p];
    if given != EMPTY then result[p] == given
    else match item.kind
      case AddrItem => false
      case ReplaceItem =>
        item.name in positions && positions[item.name] < p && result[p] == result[positions[item.name]]
      case TypeItem =>
        && result[p] !in base && result[p] in g
        && g[result[p]].ty == (if p % 3 == 1 then UpConst(item.ty) else UpConst(item.ty) | NODE)
        && forall q: nat :: q < p ==> result[q] != result[p]
  }

  ghost predicate Embeds(
      names: SystemNames, params: Params, positions: map<string, nat>, items: seq<Item>, base: Graph, g: Graph,
      result: seq<Addr>, k: nat)
  {
    && |items| == |result|
    && forall p: nat :: p < 3 * k && p < |items| ==>
         Embedded(positions, items, Given(names, params, base, items[p]), base, g, result, p)
  }

  function Filled(result: seq<Addr>, i: nat, r: Found): (filled: seq<Addr>)
    requires 3 * i + 2 < |result|
    ensures |filled| == |result|
  {
    result[3 * i := r.source][3 * i + 1 := r.connector][3 * i + 2 := r.target]
  }

  // What a connector generated after both of its ends leaves.
  lemma FreshTriple(
      g: Graph, begun: Graph, ended: Graph, after: Graph, source: Item, connector: Item, target: Item, found: Found,
      r: Found)
    requires Preserved(g, begun) && Preserved(begun, ended) && found.connector == EMPTY
    requires Placed(g, begun, NodeFor(source), found.source, r.source)
    requires Placed(begun, ended, NodeFor(target), found.target, r.target)
    requires begun.Keys == g.Keys + if found.source == EMPTY then {r.source} else {}
    requires ended.Keys == begun.Keys + if found.target == EMPTY then {r.target} else {}
    requires r.source in ended && r.target in ended && r.connector !in ended
    requires after == ended[r.connector := Arc(UpConst(connector.ty), r.source, r.target)]
    requires IsConnector(UpConst(connector.ty))
    ensures Written(g, after, source, connector, target, found, r) && OnlyAdds(g, after, r)
  {
    assert forall a <- g :: a in ended && a != r.connector;
  }

  class ScTemplateGenerator {
    const memory: ScMemory
    const items: seq<Item>
    const positions: map<string, nat>
    const params: Params
    const names: SystemNames
    const canExtendTo: (ScType, ScType) -> bool
    var generated: seq<Addr>

    constructor (
        memory: ScMemory, template: ScTemplate, params: Params, names: SystemNames,
        canExtendTo: (ScType, ScType) -> bool)
      ensures this.memory == memory && this.items == template.items && this.positions == template.positions
      ensures this.params == params && this.names == names && this.canExtendTo == canExtendTo && generated == []
    {
      this.memory, this.items, this.positions := memory, template.items, template.positions;
      this.params, this.names, this.canExtendTo := params, names, canExtendTo;
      generated := [];
    }

    // Memory holds `base` and exactly the elements generated so far.
    ghost predicate Growing(base: Graph)
      reads this, memory
    {
      Wf(base) && Wf(memory.graph) && Extends(base, memory.graph, Members(generated))
    }

    method GenerateNodeOrLink(ghost base: Graph, ty: ScType) returns (a: Addr)
      requires Growing(base) && !IsConnector(ty)
      modifies this, memory
      ensures Growing(base)
      ensures !NodeLike(ty) ==> a == EMPTY && memory.graph == old(memory.graph) && generated == old(generated)
      ensures NodeLike(ty) ==> a != EMPTY && a !in old(memory.graph)
      ensures NodeLike(ty) ==> memory.graph == old(memory.graph)[a := Node(ty | NODE)]
      ensures NodeLike(ty) ==> generated == old(generated) + [a]
    {
      if !NodeLike(ty) {
        return EMPTY;
      }
      a := memory.GenerateNode(ty);
      MembersConcat(generated, [a]);
      generated := generated + [a];
    }

    method GenerateConnector(ghost base: Graph, ty: ScType, source: Addr, target: Addr) returns (a: Addr)
      requires Growing(base) && (IsConnector(ty) ==> ConnectorType(ty))
      modifies this, memory
      ensures Growing(base)
      ensures a != EMPTY <==> IsConnector(ty) && source in old(memory.graph) && target in old(memory.graph)
      ensures a == EMPTY ==> memory.graph == old(memory.graph) && generated == old(generated)
      ensures a != EMPTY ==> a !in old(memory.graph) && memory.graph == old(memory.graph)[a := Arc(ty, source, target)]
      ensures a != EMPTY ==> generated == old(generated) + [a]
    {
      if !IsConnector(ty) {
        return EMPTY;
      }
      a := memory.GenerateConnector(ty, source, target);
      if a != EMPTY {
        MembersConcat(generated, [a]);
        generated := generated + [a];
      }
    }

    // The body of the loop over the triples; None when it throws.
    method GenerateTriple(ghost base: Graph, i: nat, result: seq<Addr>) returns (r: Option<Found>)
      requires Growing(base) && 3 * i + 2 < |items| && forall item <- items :: Accepted(item)
      modifies this, memory
      ensures Growing(base) && Preserved(old(memory.graph), memory.graph)
      ensures
        var source, connector, target := items[3 * i], items[3 * i + 1], items[3 * i + 2];
        var found := Lookups(names, params, positions, items, old(memory.graph), result, i);
        && (r.None? ==> Fails(old(memory.graph), params, source, connector, target, found))
        && (r.Some? && Known(old(memory.graph), found) ==>
              !Fails(old(memory.graph), params, source, connector, target, found))
        && (r.Some? ==> Written(old(memory.graph), memory.graph, source, connector, target, found, r.value))
      ensures r.Some? ==> OnlyAdds(old(memory.graph), memory.graph, r.value)
    {
      var source, connector, target := items[3 * i], items[3 * i + 1], items[3 * i + 2];
      assert source in items && connector in items && target in items;
      var found := Lookups(names, params, positions, items, memory.graph, result, i);
      EndFailsIs(source, found.source);
      EndFailsIs(target, found.target);
      ConnectorBit(connector.ty);
      if EndFails(source, found.source) || EndFails(target, found.target) {
        return None;
      }
      if connector.kind == TypeItem && connector.ty == UNKNOWN {
        return None;
      }
      if found.connector != EMPTY {
        IncidentIs(memory.graph, params, found.connector, source, target);
        if !Incident(memory.graph, params, found.connector, source, target) {
          return None;
        }
        var element := memory.graph[found.connector];
        return Some(Found(element.begin, found.connector, element.end));
      }
      r := GenerateFresh(base, source, connector, target, found);
    }

    // An end of a connector to be generated: what was found for it, or a new node; EMPTY when the
    // type is refused.
    method GenerateEnd(ghost base: Graph, item: Item, found: Addr) returns (a: Addr)
      requires Growing(base) && Accepted(item) && (found == EMPTY ==> !IsConnector(item.ty))
      modifies this, memory
      ensures Growing(base) && Preserved(old(memory.graph), memory.graph)
      ensures a == EMPTY <==> found == EMPTY && item.ty & NODE == 0 && item.ty & ANY_BUT_CONSTANCY != 0
      ensures a != EMPTY ==> Placed(old(memory.graph), memory.graph, NodeFor(item), found, a)
      ensures a != EMPTY ==> memory.graph.Keys == old(memory.graph).Keys + (if found == EMPTY then {a} else {})
    {
      if found != EMPTY {
        return found;
      }
      UpConstKeepsKind(item.ty);
      NodeLikeIs(item.ty);
      a := GenerateNodeOrLink(base, UpConst(item.ty));
    }

    method GenerateFresh(ghost base: Graph, source: Item, connector: Item, target: Item, found: Found)
      returns (r: Option<Found>)
      requires Growing(base) && Accepted(source) && Accepted(connector) && Accepted(target)
      requires found.connector == EMPTY
      requires found.source == EMPTY ==> !IsConnector(source.ty)
      requires found.target == EMPTY ==> !IsConnector(target.ty)
      modifies this, memory
      ensures Growing(base) && Preserved(old(memory.graph), memory.graph)
      ensures r.None? ==>
                !IsConnector(connector.ty) || EndLacking(old(memory.graph), source, found.source)
                || EndLacking(old(memory.graph), target, found.target)
      ensures r.Some? ==> IsConnector(connector.ty)
      ensures r.Some? && Known(old(memory.graph), found) ==>
                && !EndLacking(old(memory.graph), source, found.source)
                && !EndLacking(old(memory.graph), target, found.target)
      ensures r.Some? ==> Written(old(memory.graph), memory.graph, source, connector, target, found, r.value)
      ensures r.Some? ==> OnlyAdds(old(memory.graph), memory.graph, r.value)
    {
      UpConstKeepsKind(connector.ty);
      ghost var start := memory.graph;
      var s := GenerateEnd(base, source, found.source);
      if s == EMPTY {
        return None;
      }
      ghost var begun := memory.graph;
      var t := GenerateEnd(base, target, found.target);
      if t == EMPTY {
        return None;
      }
      ghost var ended := memory.graph;
      var c := GenerateConnector(base, UpConst(connector.ty), s, t);
      if c == EMPTY {
        return None;
      }
      FreshTriple(start, begun, ended, memory.graph, source, connector, target, found, Found(s, c, t));
      return Some(Found(s, c, t));
    }

    // `PreCheckTemplateAndParams`: false when it throws.
    method PreCheck() returns (ok: bool)
      requires |items| % 3 == 0 && forall n <- positions :: positions[n] < |items|
      ensures ok <==> forall n <- params :: Fitting(names, positions, items, params, canExtendTo, memory.graph, n)
    {
      var left := params.Keys;
      while left != {}
        invariant left <= params.Keys
        invariant forall n <- params ::
                    n in left || Fitting(names, positions, items, params, canExtendTo, memory.graph, n)
        decreases left
      {
        var n :| n in left;
        FitsIs(names, positions, items, params, canExtendTo, memory.graph, n);
        if !ParamFits(names, positions, items, params, canExtendTo, memory.graph, n) {
          return false;
        }
        left := left - {n};
      }
      return true;
    }

    // `operator()`: None when it throws ExceptionInvalidParams.
    method Run(ghost base: Graph) returns (r: Option<seq<Addr>>)
      requires memory.graph == base && Wf(base) && generated == []
      requires |items| % 3 == 0 && forall item <- items :: Accepted(item)
      requires forall n <- positions :: positions[n] < |items|
      modifies this, memory
      ensures Growing(base)
      ensures r.Some? ==> |r.value| == |items| && AllJoined(memory.graph, r.value, |items| / 3)
      ensures r.Some? && Sound(names, params, positions, items, base) ==>
                Embeds(names, params, positions, items, base, memory.graph, r.value, |items| / 3)
      ensures r.None? ==>
                (exists n <- params :: !Fitting(names, positions, items, params, canExtendTo, base, n))
                || FailsSomewhere(names, params, positions, items, base)
      ensures r.Some? ==> Reached(names, params, positions, items, base, memory.graph, r.value)
      ensures (exists n <- params :: !Fitting(names, positions, items, params, canExtendTo, base, n)) ==> r.None?
    {
      var ok := PreCheck();
      if !ok {
        return None;
      }
      var result := Unfilled(|items|);
      ghost var states := [State(base, result)];
      var i := 0;
      while i < |items| / 3
        invariant 0 <= i <= |items| / 3 && |result| == |items|
        invariant Growing(base) && AllJoined(memory.graph, result, i)
        invariant IsRun(names, params, positions, items, base, states)
        invariant |states| == i + 1 && Last(states) == State(memory.graph, result)
        invariant Sound(names, params, positions, items, base) ==>
                    Embeds(names, params, positions, items, base, memory.graph, result, i)
      {
        ghost var before, added := memory.graph, Members(generated);
        var triple := GenerateTriple(base, i, result);
        if triple.None? {
          assert FailsAt(names, params, positions, items, Last(states), i);
          return None;
        }
        var r := triple.value;
        OneTripleMore(names, params, positions, items, base, added, before, memory.graph, result, i, r);
        OneStepMore(
          names, params, positions, items, base, states, State(memory.graph, Filled(result, i, r)));
        states := states + [State(memory.graph, Filled(result, i, r))];
        result := Filled(result, i, r);
        i := i + 1;
      }
      return Some(result);
    }

    // Erases in the order of creation; a connector may already have gone with one of its ends.
    method CleanupCreatedElements(ghost base: Graph)
      requires Growing(base)
      modifies this, memory
      ensures memory.graph == base && generated == []
    {
      EraseInOrder(memory, generated, base);
      generated := [];
    }
  }

  lemma JoinedStep(g: Graph, after: Graph, result: seq<Addr>, k: nat, r: Found)
    requires 3 * k + 2 < |result| && AllJoined(g, result, k) && Preserved(g, after)
    requires Joined(after, r.source, r.connector, r.target)
    ensures AllJoined(after, Filled(result, k, r), k + 1)
  {
    var filled := Filled(result, k, r);
    forall i: nat | i < k + 1 ensures Joined(after, filled[3 * i], filled[3 * i + 1], filled[3 * i + 2]) {
      if i < k {
        assert Joined(g, result[3 * i], result[3 * i + 1], result[3 * i + 2]);
      }
    }
  }

  // Generated elements have no system identifiers, so what is given does not change on the way.
  lemma GivenStable(names: SystemNames, params: Params, base: Graph, g: Graph, added: set<Addr>, item: Item)
    requires Extends(base, g, added) && "" !in params && names.byAddr.Keys <= base.Keys
    ensures Given(names, params, g, item) == Given(names, params, base, item)
  {
  }

  // All that has been filled in exists.
  lemma FilledIn(g: Graph, result: seq<Addr>, k: nat, p: nat)
    requires Wf(g) && AllJoined(g, result, k) && p < 3 * k
    ensures result[p] in g && result[p] != EMPTY
  {
    assert Joined(g, result[3 * (p / 3)], result[3 * (p / 3) + 1], result[3 * (p / 3) + 2]);
    assert p == 3 * (p / 3) || p == 3 * (p / 3) + 1 || p == 3 * (p / 3) + 2;
  }

  lemma OldStaysEmbedded(
      names: SystemNames, params: Params, positions: map<string, nat>, items: seq<Item>, base: Graph, g: Graph,
      after: Graph, result: seq<Addr>, k: nat, r: Found, p: nat)
    requires Embeds(names, params, positions, items, base, g, result, k) && Preserved(g, after)
    requires 3 * k + 2 < |items| && p < 3 * k
    ensures Embedded(positions, items, Given(names, params, base, items[p]), base, after, Filled(result, k, r), p)
  {
    assert Embedded(positions, items, Given(names, params, base, items[p]), base, g, result, p);
    var filled := Filled(result, k, r);
    assert forall q: nat :: q < 3 * k ==> filled[q] == result[q];
  }

  function Lookups(
      names: SystemNames, params: Params, positions: map<string, nat>, items: seq<Item>, g: Graph, result: seq<Addr>,
      k: nat): Found
    requires 3 * k + 2 < |items|
  {
    Found(
      Replacement(names, params, positions, g, items[3 * k], result),
      Replacement(names, params, positions, g, items[3 * k + 1], result),
      Replacement(names, params, positions, g, items[3 * k + 2], result))
  }

  // What is looked up exists, and is looked up for everything but a type that nothing is given for.
  ghost predicate FoundFor(
      positions: map<string, nat>, g: Graph, result: seq<Addr>, k: nat, item: Item, given: Addr, found: Addr)
    requires 3 * k <= |result|
  {
    && (found != EMPTY ==> found in g)
    && (found == EMPTY <==> item.kind == TypeItem && given == EMPTY)
    && (given != EMPTY ==> found == given)
    && (given == EMPTY ==> item.kind != AddrItem)
    && (given == EMPTY && item.kind == ReplaceItem ==>
          item.name in positions && positions[item.name] < 3 * k && found == result[positions[item.name]])
  }

  lemma LookedUp(
      names: SystemNames, params: Params, positions: map<string, nat>, items: seq<Item>, base: Graph,
      added: set<Addr>, g: Graph, result: seq<Addr>, k: nat, p: nat)
    requires Wf(g) && Extends(base, g, added) && AllJoined(g, result, k)
    requires |result| == |items| && 3 * k + 2 < |items| && 3 * k <= p <= 3 * k + 2
    requires Sound(names, params, positions, items, base) && Accepted(items[p])
    ensures
      var found := Replacement(names, params, positions, g, items[p], result);
      var given := Given(names, params, base, items[p]);
      FoundFor(positions, g, result, k, items[p], given, found)
  {
    var item := items[p];
    GivenStable(names, params, base, g, added, item);
    assert SoundItem(positions, items, base, p, Given(names, params, base, item));
    if Given(names, params, base, item) == EMPTY && item.kind == ReplaceItem {
      assert p - p % 3 == 3 * k;
      FilledIn(g, result, k, positions[item.name]);
    }
  }

  lemma EntryEmbedded(
      positions: map<string, nat>, items: seq<Item>, base: Graph, g: Graph, after: Graph, result: seq<Addr>,
      filled: seq<Addr>, k: nat, p: nat, given: Addr, found: Addr)
    requires |filled| == |items| == |result| && 3 * k <= p < |items| && base.Keys <= g.Keys
    requires forall q: nat :: q < 3 * k ==> filled[q] == result[q] && result[q] in g
    requires FoundFor(positions, g, result, k, items[p], given, found)
    requires found != EMPTY ==> filled[p] == found
    requires found == EMPTY ==>
               && filled[p] !in g && filled[p] in after
               && after[filled[p]].ty == (if p % 3 == 1 then UpConst(items[p].ty) else UpConst(items[p].ty) | NODE)
               && forall q: nat :: 3 * k <= q < p ==> filled[q] != filled[p]
    ensures Embedded(positions, items, given, base, after, filled, p)
  {
  }

  lemma NewTripleEmbedded(
      names: SystemNames, params: Params, positions: map<string, nat>, items: seq<Item>, base: Graph, g: Graph,
      after: Graph, result: seq<Addr>, k: nat, r: Found, s: Addr, c: Addr, t: Addr)
    requires Wf(g) && base.Keys <= g.Keys && AllJoined(g, result, k)
    requires |result| == |items| && 3 * k + 2 < |items|
    requires
      var found := Lookups(names, params, positions, items, g, result, k);
      && FoundFor(positions, g, result, k, items[3 * k], s, found.source)
      && FoundFor(positions, g, result, k, items[3 * k + 1], c, found.connector)
      && FoundFor(positions, g, result, k, items[3 * k + 2], t, found.target)
      && found.connector == EMPTY
      && Written(g, after, items[3 * k], items[3 * k + 1], items[3 * k + 2], found, r)
    ensures
      var filled := Filled(result, k, r);
      && Embedded(positions, items, s, base, after, filled, 3 * k)
      && Embedded(positions, items, c, base, after, filled, 3 * k + 1)
      && Embedded(positions, items, t, base, after, filled, 3 * k + 2)
  {
    var filled, found := Filled(result, k, r), Lookups(names, params, positions, items, g, result, k);
    assert (3 * k) % 3 == 0 && (3 * k + 1) % 3 == 1 && (3 * k + 2) % 3 == 2;
    forall q: nat | q < 3 * k ensures filled[q] == result[q] && result[q] in g {
      FilledIn(g, result, k, q);
    }
    assert filled[3 * k] == r.source && filled[3 * k + 1] == r.connector && filled[3 * k + 2] == r.target;
    EntryEmbedded(positions, items, base, g, after, result, filled, k, 3 * k, s, found.source);
    EntryEmbedded(positions, items, base, g, after, result, filled, k, 3 * k + 1, c, found.connector);
    EntryEmbedded(positions, items, base, g, after, result, filled, k, 3 * k + 2, t, found.target);
  }

  // The three look-ups of a triple.
  lemma TripleLookedUp(
      names: SystemNames, params: Params, positions: map<string, nat>, items: seq<Item>, base: Graph,
      added: set<Addr>, g: Graph, result: seq<Addr>, k: nat)
    requires Wf(g) && Extends(base, g, added) && AllJoined(g, result, k)
    requires |result| == |items| && 3 * k + 2 < |items|
    requires Sound(names, params, positions, items, base) && forall item <- items :: Accepted(item)
    ensures
      var found := Lookups(names, params, positions, items, g, result, k);
      && FoundFor(positions, g, result, k, items[3 * k], Given(names, params, base, items[3 * k]), found.source)
      && FoundFor(
           positions, g, result, k, items[3 * k + 1], Given(names, params, base, items[3 * k + 1]), found.connector)
      && FoundFor(positions, g, result, k, items[3 * k + 2], Given(names, params, base, items[3 * k + 2]), found.target)
      && found.connector == EMPTY
  {
    assert items[3 * k] in items && items[3 * k + 1] in items && items[3 * k + 2] in items;
    LookedUp(names, params, positions, items, base, added, g, result, k, 3 * k);
    LookedUp(names, params, positions, items, base, added, g, result, k, 3 * k + 1);
    LookedUp(names, params, positions, items, base, added, g, result, k, 3 * k + 2);
    assert (3 * k + 1) % 3 == 1;
    assert SoundItem(positions, items, base, 3 * k + 1, Given(names, params, base, items[3 * k + 1]));
  }

  lemma EmbedStep(
      names: SystemNames, params: Params, positions: map<string, nat>, items: seq<Item>, base: Graph,
      added: set<Addr>, g: Graph, after: Graph, result: seq<Addr>, k: nat, r: Found)
    requires Wf(g) && Extends(base, g, added) && AllJoined(g, result, k) && Preserved(g, after)
    requires |result| == |items| && 3 * k + 2 < |items|
    requires Sound(names, params, positions, items, base) && forall item <- items :: Accepted(item)
    requires Embeds(names, params, positions, items, base, g, result, k)
    requires
      var found := Lookups(names, params, positions, items, g, result, k);
      Written(g, after, items[3 * k], items[3 * k + 1], items[3 * k + 2], found, r)
    ensures Embeds(names, params, positions, items, base, after, Filled(result, k, r), k + 1)
  {
    var filled := Filled(result, k, r);
    TripleLookedUp(names, params, positions, items, base, added, g, result, k);
    NewTripleEmbedded(
      names, params, positions, items, base, g, after, result, k, r, Given(names, params, base, items[3 * k]),
      Given(names, params, base, items[3 * k + 1]), Given(names, params, base, items[3 * k + 2]));
    forall p: nat | p < 3 * k
      ensures Embedded(positions, items, Given(names, params, base, items[p]), base, after, filled, p)
    {
      OldStaysEmbedded(names, params, positions, items, base, g, after, result, k, r, p);
    }
  }

  // What the loop over the triples keeps.
  lemma OneTripleMore(
      names: SystemNames, params: Params, positions: map<string, nat>, items: seq<Item>, base: Graph,
      added: set<Addr>, g: Graph, after: Graph, result: seq<Addr>, k: nat, r: Found)
    requires Wf(g) && Extends(base, g, added) && AllJoined(g, result, k) && OnlyAdds(g, after, r)
    requires |result| == |items| && 3 * k + 2 < |items| && forall item <- items :: Accepted(item)
    requires Sound(names, params, positions, items, base) ==>
               Embeds(names, params, positions, items, base, g, result, k)
    requires
      var found := Lookups(names, params, positions, items, g, result, k);
      Written(g, after, items[3 * k], items[3 * k + 1], items[3 * k + 2], found, r)
    ensures AllJoined(after, Filled(result, k, r), k + 1)
    ensures MayStep(names, params, positions, items, k, State(g, result), State(after, Filled(result, k, r)))
    ensures Sound(names, params, positions, items, base) ==>
              Embeds(names, params, positions, items, base, after, Filled(result, k, r), k + 1)
  {
    JoinedStep(g, after, result, k, r);
    assert Step(names, params, positions, items, g, result, k, after, Filled(result, k, r), r);
    if Sound(names, params, positions, items, base) {
      EmbedStep(names, params, positions, items, base, added, g, after, result, k, r);
    }
  }

  lemma RealizableEndFits(
      positions: map<string, nat>, g: Graph, result: seq<Addr>, k: nat, item: Item, p: nat, given: Addr, found: Addr)
    requires 3 * k <= |result| && FoundFor(positions, g, result, k, item, given, found)
    requires Accepted(item) && RealizableItem(item, p, given) && p % 3 != 1
    ensures !EndRefused(item, found) && !EndLacking(g, item, found)
  {
    ConnectorBit(item.ty);
  }

  lemma RealizableTripleFits(
      names: SystemNames, params: Params, positions: map<string, nat>, items: seq<Item>, base: Graph,
      added: set<Addr>, g: Graph, result: seq<Addr>, k: nat)
    requires Wf(g) && Extends(base, g, added) && AllJoined(g, result, k)
    requires |result| == |items| && 3 * k + 2 < |items|
    requires Realizable(names, params, positions, items, base) && forall item <- items :: Accepted(item)
    ensures !Fails(
              g, params, items[3 * k], items[3 * k + 1], items[3 * k + 2],
              Lookups(names, params, positions, items, g, result, k))
  {
    TripleLookedUp(names, params, positions, items, base, added, g, result, k);
    var source, connector, target := items[3 * k], items[3 * k + 1], items[3 * k + 2];
    var found := Lookups(names, params, positions, items, g, result, k);
    assert source in items && connector in items && target in items;
    assert (3 * k) % 3 == 0 && (3 * k + 1) % 3 == 1 && (3 * k + 2) % 3 == 2;
    assert RealizableItem(source, 3 * k, Given(names, params, base, source));
    assert RealizableItem(connector, 3 * k + 1, Given(names, params, base, connector));
    assert RealizableItem(target, 3 * k + 2, Given(names, params, base, target));
    RealizableEndFits(
      positions, g, result, k, source, 3 * k, Given(names, params, base, source), found.source);
    RealizableEndFits(
      positions, g, result, k, target, 3 * k + 2, Given(names, params, base, target), found.target);
    ConnectorBit(connector.ty);
    assert !IsConnector(UNKNOWN);
  }

  // Nowhere does a realizable template fail.
  lemma NeverFails(names: SystemNames, params: Params, positions: map<string, nat>, items: seq<Item>, base: Graph)
    requires Realizable(names, params, positions, items, base) && forall item <- items :: Accepted(item)
    ensures !FailsSomewhere(names, params, positions, items, base)
  {
    forall states |
      IsRun(names, params, positions, items, base, states) && Wf(Last(states).g)
      ensures !FailsAt(names, params, positions, items, Last(states), |states| - 1)
    {
      var k, last := |states| - 1, Last(states);
      if FailsAt(names, params, positions, items, last, k) {
        RunKeeps(names, params, positions, items, base, states, k);
        RealizableTripleFits(names, params, positions, items, base, last.g.Keys - base.Keys, last.g, last.result, k);
      }
    }
  }

  // `ScTemplate::Generate`: None when it throws ExceptionInvalidParams, and then nothing has changed.
  // Otherwise only elements were added, every triple of the result is a connector between its ends,
  // and a sound template is embedded. It is refused only when a parameter does not fit or some triple
  // fails.
  method Generate(
      memory: ScMemory, template: ScTemplate, params: Params, names: SystemNames,
      canExtendTo: (ScType, ScType) -> bool)
    returns (r: Option<seq<Addr>>)
    requires Wf(memory.graph) && template.Valid()
    modifies memory
    ensures Wf(memory.graph)
    ensures r.None? ==> memory.graph == old(memory.graph)
    ensures r.Some? ==> exists added :: Extends(old(memory.graph), memory.graph, added)
    ensures r.Some? ==>
              |r.value| == |template.items| && AllJoined(memory.graph, r.value, |template.items| / 3)
    ensures r.Some? && Sound(names, params, template.positions, template.items, old(memory.graph)) ==>
              Embeds(names, params, template.positions, template.items, old(memory.graph), memory.graph, r.value,
                     |template.items| / 3)
    ensures r.None? ==>
              (exists n <- params ::
                 !Fitting(names, template.positions, template.items, params, canExtendTo, old(memory.graph), n))
              || FailsSomewhere(names, params, template.positions, template.items, old(memory.graph))
    ensures r.Some? ==>
              Reached(names, params, template.positions, template.items, old(memory.graph), memory.graph, r.value)
    ensures r.Some? ==>
              AllMade(template.items, old(memory.graph), memory.graph, r.value, |template.items| / 3)
    ensures (exists n <- params ::
               !Fitting(names, template.positions, template.items, params, canExtendTo, old(memory.graph), n)) ==>
              r.None?
  {
    var gen := new ScTemplateGenerator(memory, template, params, names, canExtendTo);
    ghost var base := memory.graph;
    r := gen.Run(base);
    if r.None? {
      gen.CleanupCreatedElements(base);
    } else {
      ReachedIsMade(names, params, template.positions, template.items, base, memory.graph, r.value);
    }
  }

  // ---- What is made ----

  // The element at `a` stands for a typed item of the triples below `k`: a constant element, a connector
  // in the middle of a triple and a node at its ends, of the type of the item otherwise.
  ghost predicate MadeFor(items: seq<Item>, g: Graph, result: seq<Addr>, k: nat, a: Addr) {
    |items| == |result| && a in g
    && exists p: nat :: p < 3 * k && p < |items| && result[p] == a && MadeAt(items[p], g[a], p % 3 == 1)
  }

  ghost predicate MadeAt(item: Item, made: Element, isConnector: bool) {
    MadeConstant(item.ty, made.ty, !isConnector) && (isConnector ==> IsConnector(made.ty))
  }

  ghost predicate AllMade(items: seq<Item>, base: Graph, g: Graph, result: seq<Addr>, k: nat) {
    forall a <- g :: a !in base ==> MadeFor(items, g, result, k, a)
  }

  lemma StillMade(
      items: seq<Item>, g: Graph, after: Graph, result: seq<Addr>, filled: seq<Addr>, k: nat, a: Addr)
    requires MadeFor(items, g, result, k, a) && Preserved(g, after)
    requires |filled| == |result| && forall q: nat :: q < 3 * k && q < |result| ==> filled[q] == result[q]
    ensures MadeFor(items, after, filled, k + 1, a)
  {
    var p: nat :| p < 3 * k && p < |items| && result[p] == a && MadeAt(items[p], g[a], p % 3 == 1);
    assert p < 3 * (k + 1) && filled[p] == a;
  }

  // A new element is the connector of the triple or the node made for one of its ends.
  lemma WhatIsNew(
      g: Graph, after: Graph, source: Element, ty: ScType, target: Element, found: Found, r: Found, a: Addr)
    requires WrittenAs(g, after, source, ty, target, found, r) && a in after && a !in g
    ensures a == r.connector ==> IsConnector(after[a].ty) && after[a].ty == ty
    ensures a != r.connector ==> (a == r.source && after[a] == source) || (a == r.target && after[a] == target)
  {
  }

  lemma FilledAt(result: seq<Addr>, k: nat, r: Found)
    requires 3 * k + 2 < |result|
    ensures
      var filled := Filled(result, k, r);
      filled[3 * k] == r.source && filled[3 * k + 1] == r.connector && filled[3 * k + 2] == r.target
  {
  }

  lemma MadeHere(items: seq<Item>, g: Graph, result: seq<Addr>, k: nat, p: nat, a: Addr)
    requires |items| == |result| && p < 3 * k && p < |items| && result[p] == a && a in g
    requires MadeAt(items[p], g[a], p % 3 == 1)
    ensures MadeFor(items, g, result, k, a)
  {
  }

  lemma NewlyMade(
      items: seq<Item>, g: Graph, after: Graph, result: seq<Addr>, k: nat, source: Element, ty: ScType,
      target: Element, found: Found, r: Found, a: Addr)
    requires |result| == |items| && 3 * k + 2 < |items|
    requires WrittenAs(g, after, source, ty, target, found, r) && a in after && a !in g
    requires MadeAt(items[3 * k], source, false) && MadeConstant(items[3 * k + 1].ty, ty, false)
    requires MadeAt(items[3 * k + 2], target, false)
    ensures MadeFor(items, after, Filled(result, k, r), k + 1, a)
  {
    WhatIsNew(g, after, source, ty, target, found, r, a);
    FilledAt(result, k, r);
    assert (3 * k) % 3 == 0 && (3 * k + 1) % 3 == 1 && (3 * k + 2) % 3 == 2;
    if a == r.connector {
      MadeHere(items, after, Filled(result, k, r), k + 1, 3 * k + 1, a);
    } else if a == r.source && after[a] == source {
      MadeHere(items, after, Filled(result, k, r), k + 1, 3 * k, a);
    } else {
      MadeHere(items, after, Filled(result, k, r), k + 1, 3 * k + 2, a);
    }
  }

  lemma {:induction false} RunMakes(
      names: SystemNames, params: Params, positions: map<string, nat>, items: seq<Item>, base: Graph,
      states: seq<State>, k: nat)
    requires IsRun(names, params, positions, items, base, states) && k < |states|
    ensures AllMade(items, base, states[k].g, states[k].result, k)
    decreases k
  {
    if k > 0 {
      RunMakes(names, params, positions, items, base, states, k - 1);
      var r := StepInRun(names, params, positions, items, base, states, k - 1);
      StepMakes(names, params, positions, items, base, states[k - 1], states[k], k - 1, r);
    }
  }

  lemma StepMakes(
      names: SystemNames, params: Params, positions: map<string, nat>, items: seq<Item>, base: Graph, from: State,
      to: State, k: nat, r: Found)
    requires AllMade(items, base, from.g, from.result, k)
    requires Step(names, params, positions, items, from.g, from.result, k, to.g, to.result, r)
    ensures AllMade(items, base, to.g, to.result, k + 1)
  {
    forall a <- to.g | a !in base ensures MadeFor(items, to.g, to.result, k + 1, a) {
      if a in from.g {
        StillMade(items, from.g, to.g, from.result, to.result, k, a);
      } else {
        var source, connector, target := items[3 * k], items[3 * k + 1], items[3 * k + 2];
        ConstantNodeForm(source.ty);
        ConstantForm(connector.ty);
        ConstantNodeForm(target.ty);
        NewlyMade(
          items, from.g, to.g, from.result, k, NodeFor(source), UpConst(connector.ty), NodeFor(target),
          Lookups(names, params, positions, items, from.g, from.result, k), r, a);
      }
    }
  }

  // Whatever a generation makes stands for a typed item of the template, made constant.
  lemma ReachedIsMade(
      names: SystemNames, params: Params, positions: map<string, nat>, items: seq<Item>, base: Graph, g: Graph,
      result: seq<Addr>)
    requires Reached(names, params, positions, items, base, g, result)
    ensures AllMade(items, base, g, result, |items| / 3)
  {
    var states :|
      && IsRun(names, params, positions, items, base, states)
      && |states| - 1 == |items| / 3 && Last(states) == State(g, result);
    RunMakes(names, params, positions, items, base, states, |states| - 1);
  }

  // ---- What is given ----

  // The name spells the hash of an existing element with this system identifier.
  ghost predicate SpellsVariable(names: SystemNames, g: Graph, name: string, identifier: string) {
    exists a ::
      && a in g && a != EMPTY && a.hash <= MAX_HASH
      && name != "" && AllDigits(name) && ValueOf(name) == a.hash
      && identifier == if a in names.byAddr then names.byAddr[a] else ""
  }

  // The parameter that decides on an item of this name: the one under the name itself, or the one
  // under the identifier of the variable that the name spells.
  ghost predicate Decides(names: SystemNames, params: Params, g: Graph, name: string, key: string) {
    && name != "" && key in params && params[key] != EMPTY
    && (key == name || (name !in params && SpellsVariable(names, g, name, key)))
  }

  lemma ParamDecides(names: SystemNames, params: Params, g: Graph, name: string, key: string)
    requires Decides(names, params, g, name, key)
    ensures ParamOf(names, params, g, name) == params[key]
  {
    if name !in params {
      var a :|
        && a in g && a != EMPTY && a.hash <= MAX_HASH
        && name != "" && AllDigits(name) && ValueOf(name) == a.hash
        && key == if a in names.byAddr then names.byAddr[a] else "";
      assert HashOf(name) == a;
    }
  }

  lemma ParamDecided(names: SystemNames, params: Params, g: Graph, name: string) returns (key: string)
    requires name != "" && ParamOf(names, params, g, name) != EMPTY
    ensures Decides(names, params, g, name, key)
  {
    if name in params {
      key := name;
    } else {
      var a := HashOf(name);
      key := if a in names.byAddr then names.byAddr[a] else "";
      assert SpellsVariable(names, g, name, key);
    }
  }

  // Parameters come before addresses; what neither fixes is not given.
  lemma WhatIsGiven(names: SystemNames, params: Params, g: Graph, item: Item)
    ensures forall key :: Decides(names, params, g, item.name, key) ==> Given(names, params, g, item) == params[key]
    ensures (forall key :: !Decides(names, params, g, item.name, key)) ==>
              Given(names, params, g, item) == if item.kind == AddrItem then item.addr else EMPTY
  {
    forall key | Decides(names, params, g, item.name, key) ensures Given(names, params, g, item) == params[key] {
      ParamDecides(names, params, g, item.name, key);
    }
    if item.name != "" && ParamOf(names, params, g, item.name) != EMPTY {
      var key := ParamDecided(names, params, g, item.name);
    }
  }

  // In the result of a sound template an item is the value of the parameter that decides on it, or else
  // its own address, or else what the first definition of its name is, or something new.
  lemma ResultIsGiven(
      names: SystemNames, params: Params, positions: map<string, nat>, items: seq<Item>, base: Graph, g: Graph,
      result: seq<Addr>, p: nat)
    requires Sound(names, params, positions, items, base) && |items| % 3 == 0 && p < |items|
    requires PositionsIndexed(items, positions)
    requires Embeds(names, params, positions, items, base, g, result, |items| / 3)
    ensures forall key :: Decides(names, params, base, items[p].name, key) ==> result[p] == params[key]
    ensures (forall key :: !Decides(names, params, base, items[p].name, key)) ==>
              match items[p].kind
              case AddrItem => result[p] == items[p].addr
              case ReplaceItem => items[p].name in positions && result[p] == result[positions[items[p].name]]
              case TypeItem => result[p] !in base
  {
    WhatIsGiven(names, params, base, items[p]);
    assert Embedded(positions, items, Given(names, params, base, items[p]), base, g, result, p);
  }

  // ---- Equal names ----

  ghost predicate OneAddressPerName(items: seq<Item>, result: seq<Addr>) {
    && |items| == |result|
    && forall p: nat, q: nat :: p < |items| && q < |items| && items[p].name == items[q].name != "" ==>
         result[p] == result[q]
  }

  // Whatever defines a name again is fixed to one and the same address.
  ghost predicate OneDefinitionPerName(names: SystemNames, params: Params, items: seq<Item>, base: Graph) {
    forall p: nat, q: nat ::
      p < q < |items| && items[p].name == items[q].name != ""
      && items[p].kind != ReplaceItem && items[q].kind != ReplaceItem ==>
      Given(names, params, base, items[p]) == Given(names, params, base, items[q]) != EMPTY
  }

  // Two definitions of a name get one address exactly when both are fixed to it.
  lemma DefinedTwice(
      names: SystemNames, params: Params, positions: map<string, nat>, items: seq<Item>, base: Graph, g: Graph,
      result: seq<Addr>, p: nat, q: nat)
    requires |items| % 3 == 0 && Sound(names, params, positions, items, base)
    requires Embeds(names, params, positions, items, base, g, result, |items| / 3)
    requires p < q < |items| && items[p].kind != ReplaceItem && items[q].kind != ReplaceItem
    ensures result[p] == result[q] <==>
            Given(names, params, base, items[p]) == Given(names, params, base, items[q]) != EMPTY
  {
    assert Embedded(positions, items, Given(names, params, base, items[p]), base, g, result, p);
    assert Embedded(positions, items, Given(names, params, base, items[q]), base, g, result, q);
    assert SoundItem(positions, items, base, q, Given(names, params, base, items[q]));
  }

  // An item has the address of the definition of its name.
  lemma SameAsDefinition(
      names: SystemNames, params: Params, positions: map<string, nat>, items: seq<Item>, base: Graph, g: Graph,
      result: seq<Addr>, p: nat)
    requires PositionsIndexed(items, positions) && |items| % 3 == 0
    requires OneDefinitionPerName(names, params, items, base)
    requires Embeds(names, params, positions, items, base, g, result, |items| / 3)
    requires p < |items| && items[p].name in positions
    ensures result[p] == result[positions[items[p].name]]
  {
    var d := positions[items[p].name];
    assert Embedded(positions, items, Given(names, params, base, items[p]), base, g, result, p);
    assert Embedded(positions, items, Given(names, params, base, items[d]), base, g, result, d);
  }

  // All items of one name have one address if and only if no name has two definitions, save where
  // both are fixed to one address.
  lemma EqualNamesEqualAddresses(
      names: SystemNames, params: Params, positions: map<string, nat>, items: seq<Item>, base: Graph, g: Graph,
      result: seq<Addr>)
    requires PositionsIndexed(items, positions) && |items| % 3 == 0
    requires Sound(names, params, positions, items, base)
    requires Embeds(names, params, positions, items, base, g, result, |items| / 3)
    ensures OneAddressPerName(items, result) <==> OneDefinitionPerName(names, params, items, base)
  {
    if OneAddressPerName(items, result) {
      forall p: nat, q: nat |
        p < q < |items| && items[p].name == items[q].name != ""
        && items[p].kind != ReplaceItem && items[q].kind != ReplaceItem
        ensures Given(names, params, base, items[p]) == Given(names, params, base, items[q]) != EMPTY
      {
        DefinedTwice(names, params, positions, items, base, g, result, p, q);
      }
    }
    if OneDefinitionPerName(names, params, items, base) {
      forall p: nat, q: nat | p < |items| && q < |items| && items[p].name == items[q].name != ""
        ensures result[p] == result[q]
      {
        OneNameOneAddress(names, params, positions, items, base, g, result, p, q);
      }
    }
  }

  lemma OneNameOneAddress(
      names: SystemNames, params: Params, positions: map<string, nat>, items: seq<Item>, base: Graph, g: Graph,
      result: seq<Addr>, p: nat, q: nat)
    requires PositionsIndexed(items, positions) && |items| % 3 == 0
    requires OneDefinitionPerName(names, params, items, base)
    requires Embeds(names, params, positions, items, base, g, result, |items| / 3)
    requires p < |items| && q < |items| && items[p].name == items[q].name != ""
    ensures result[p] == result[q]
  {
    if items[p].name in positions {
      SameAsDefinition(names, params, positions, items, base, g, result, p);
      SameAsDefinition(names, params, positions, items, base, g, result, q);
    } else {
      assert Embedded(positions, items, Given(names, params, base, items[p]), base, g, result, p);
      assert Embedded(positions, items, Given(names, params, base, items[q]), base, g, result, q);
    }
  }

  // Under a name there is one address, or one type, and not both.
  ghost predicate Consistent(items: seq<Item>) {
    forall p: nat, q: nat :: p < |items| && q < |items| && items[p].name == items[q].name != "" ==>
      && (items[p].kind == AddrItem && items[q].kind == AddrItem ==> items[p].addr == items[q].addr)
      && (items[p].kind == TypeItem ==> items[q].kind != AddrItem)
      && (items[p].kind == TypeItem && items[q].kind == TypeItem ==> p == q)
  }

  // Such a template does, whatever the parameters.
  lemma ConsistentHasOneDefinition(names: SystemNames, params: Params, items: seq<Item>, base: Graph)
    requires Consistent(items) && forall item <- items :: Accepted(item)
    ensures OneDefinitionPerName(names, params, items, base)
  {
    forall p: nat, q: nat |
      p < q < |items| && items[p].name == items[q].name != ""
      && items[p].kind != ReplaceItem && items[q].kind != ReplaceItem
      ensures Given(names, params, base, items[p]) == Given(names, params, base, items[q]) != EMPTY
    {
      assert items[p] in items && Accepted(items[p]);
    }
  }

  // Two types under a name that nothing is given for: two elements under one name, so the names of
  // the result no longer tell its elements apart.
  lemma TypedTwiceIsTwoElements(
      names: SystemNames, params: Params, positions: map<string, nat>, items: seq<Item>, base: Graph, g: Graph,
      result: seq<Addr>, p: nat, q: nat)
    requires |items| % 3 == 0 && Sound(names, params, positions, items, base)
    requires Embeds(names, params, positions, items, base, g, result, |items| / 3)
    requires p < q < |items| && items[p].kind == items[q].kind == TypeItem && items[p].name == items[q].name != ""
    requires Given(names, params, base, items[q]) == EMPTY
    ensures result[p] != result[q] && !OneAddressPerName(items, result)
  {
    DefinedTwice(names, params, positions, items, base, g, result, p, q);
  }

  function NamesOf(items: seq<Item>): set<string> { set item <- items :: item.name }

  function FirstOf(items: seq<Item>, name: string): (p: nat)
    requires name in NamesOf(items)
    ensures p < |items| && items[p].name == name
  {
    if items[0].name == name then 0
    else
      assert items == [items[0]] + items[1..];
      1 + FirstOf(items[1..], name)
  }

  // The result is an image of the template: one map from names to addresses fits all of its items,
  // and every triple is a connector between the images of its ends.
  lemma ResultIsImage(
      names: SystemNames, params: Params, positions: map<string, nat>, items: seq<Item>, base: Graph, g: Graph,
      result: seq<Addr>)
    returns (image: map<string, Addr>)
    requires PositionsIndexed(items, positions) && |items| % 3 == 0
    requires OneDefinitionPerName(names, params, items, base)
    requires Sound(names, params, positions, items, base) && AllJoined(g, result, |items| / 3)
    requires Embeds(names, params, positions, items, base, g, result, |items| / 3)
    ensures forall p: nat :: p < |items| && items[p].name != "" ==>
              items[p].name in image && result[p] == image[items[p].name]
    ensures forall i: nat :: 3 * i + 2 < |items| ==> Joined(g, result[3 * i], result[3 * i + 1], result[3 * i + 2])
    ensures forall p: nat :: p < |items| && Given(names, params, base, items[p]) != EMPTY ==>
              result[p] == Given(names, params, base, items[p])
  {
    image := map n <- NamesOf(items) :: result[FirstOf(items, n)];
    forall p: nat | p < |items| && items[p].name != ""
      ensures items[p].name in image && result[p] == image[items[p].name]
    {
      assert items[p].name in NamesOf(items);
      OneNameOneAddress(names, params, positions, items, base, g, result, p, FirstOf(items, items[p].name));
    }
    forall p: nat | p < |items| && Given(names, params, base, items[p]) != EMPTY
      ensures result[p] == Given(names, params, base, items[p])
    {
      assert Embedded(positions, items, Given(names, params, base, items[p]), base, g, result, p);
    }
  }
}
