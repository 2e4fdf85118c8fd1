// ui_command_generate_instance of uiCommands.cpp: an instance of a command template.
module CommandInstance {
  import opened ScTypes
  import opened ScGraph
  import opened ScRollback

  const ARC_MASK: ScType := 0xC018

  predicate IsVar(ty: ScType) { ty & VAR != 0 }
  predicate IsTemplateArc(ty: ScType) { ty & ARC_MASK != 0 }
  predicate IsNode(ty: ScType) { ty & NODE != 0 }

  datatype Role = Constant | VarNode | VarArc | Ignored

  // What an element of the template is made into.
  function RoleOf(ty: ScType): Role {
    if !IsVar(ty) then Constant
    else if IsTemplateArc(ty) then VarArc
    else if IsNode(ty) then VarNode
    else Ignored
  }

  // The template: its elements, each once, and the keynodes of the arguments with their values.
  datatype Command = Command(items: seq<Addr>, argumentKeys: seq<Addr>, arguments: seq<Addr>)

  // Elements and arguments exist, only connectors have arc bits, and nothing is listed twice.
  ghost predicate Valid(g: Graph, command: Command) {
    && Wf(g)
    && (forall t <- command.items :: t in g && (IsTemplateArc(g[t].ty) <==> IsConnector(g[t].ty)))
    && (forall a <- command.arguments :: a in g)
    && forall i: nat, k: nat :: i < k < |command.items| ==> command.items[i] != command.items[k]
  }

  // The index of a keynode, the number of keynodes if it is none.
  function ArgumentIndex(keys: seq<Addr>, t: Addr): (i: nat)
    ensures i <= |keys| && (i < |keys| ==> keys[i] == t) && (i == |keys| ==> t !in keys)
    ensures forall k :: 0 <= k < i ==> keys[k] != t
  {
    if keys == [] then 0 else if keys[0] == t then 0 else 1 + ArgumentIndex(keys[1..], t)
  }

  predicate IsMissing(command: Command, t: Addr) {
    |command.arguments| <= ArgumentIndex(command.argumentKeys, t) < |command.argumentKeys|
  }

  // Constants stand for themselves, argument keynodes for the arguments.
  function ConstantImage(command: Command, t: Addr): Addr {
    var i := ArgumentIndex(command.argumentKeys, t);
    if i < |command.argumentKeys| && i < |command.arguments| then command.arguments[i] else t
  }

  // ---- Nodes ----

  ghost predicate NodeImage(g: Graph, after: Graph, command: Command, inst: map<Addr, Addr>, t: Addr)
    requires t in g && t in inst
  {
    if RoleOf(g[t].ty) == Constant then inst[t] == ConstantImage(command, t)
    else
      && RoleOf(g[t].ty) == VarNode && inst[t] !in g
      && inst[t] in after && after[inst[t]] == Node(UpConst(g[t].ty) | NODE)
  }

  function Images(inst: map<Addr, Addr>, ts: set<Addr>): set<Addr> {
    set t <- ts | t in inst :: inst[t]
  }

  function Having(g: Graph, items: seq<Addr>, role: Role): set<Addr> {
    set t <- items | t in g && RoleOf(g[t].ty) == role
  }

  ghost predicate Mapped(g: Graph, after: Graph, command: Command, inst: map<Addr, Addr>) {
    && (forall t <- inst :: t in g && NodeImage(g, after, command, inst, t))
    && forall t <- inst, u <- inst ::
         RoleOf(g[t].ty) == VarNode && RoleOf(g[u].ty) == VarNode && inst[t] == inst[u] ==> t == u
  }

  ghost predicate Listed(g: Graph, seen: seq<Addr>, inst: map<Addr, Addr>, created: seq<Addr>, arcs: seq<Addr>) {
    && inst.Keys == Having(g, seen, Constant) + Having(g, seen, VarNode)
    && Members(created) == Images(inst, Having(g, seen, VarNode))
    && Members(arcs) == Having(g, seen, VarArc)
    && forall i: nat, k: nat :: i < k < |arcs| ==> arcs[i] != arcs[k]
  }

  // After the elements `seen`: constants and variable nodes are mapped, variable arcs are queued, and
  // only the images of variable nodes were created.
  ghost predicate Collected(
      g: Graph, after: Graph, command: Command, seen: seq<Addr>, inst: map<Addr, Addr>, created: seq<Addr>,
      arcs: seq<Addr>)
  {
    && Extends(g, after, Members(created))
    && Mapped(g, after, command, inst) && Listed(g, seen, inst, created, arcs)
    && NoneMissing(g, command, seen)
  }

  // No keynode among the elements stands for an argument that is missing.
  ghost predicate NoneMissing(g: Graph, command: Command, items: seq<Addr>) {
    forall t <- items :: t in g && !MissingAt(g, command, t)
  }

  predicate MissingAt(g: Graph, command: Command, t: Addr)
    requires t in g
  {
    RoleOf(g[t].ty) == Constant && IsMissing(command, t)
  }

  lemma ItemFacts(g: Graph, command: Command, i: nat)
    requires Valid(g, command) && i < |command.items|
    ensures command.items[i] in g && command.items[i] !in command.items[..i]
    ensures command.items[..i + 1] == command.items[..i] + [command.items[i]]
    ensures MissingAt(g, command, command.items[i]) ==> !NoneMissing(g, command, command.items)
  {
    assert command.items[i] in command.items;
  }

  // The body of the loop over the template; not valid when the element is an argument that is missing.
  method CollectItem(
      memory: ScMemory, template: Graph, command: Command, ghost seen: seq<Addr>, t: Addr, inst: map<Addr, Addr>,
      created: seq<Addr>, arcs: seq<Addr>)
    returns (isValid: bool, inst': map<Addr, Addr>, created': seq<Addr>, arcs': seq<Addr>)
    requires Wf(memory.graph) && Collected(template, memory.graph, command, seen, inst, created, arcs)
    requires t in template && t !in seen
    modifies memory
    ensures Wf(memory.graph) && (isValid <==> !MissingAt(template, command, t))
    ensures !isValid ==> memory.graph == old(memory.graph) && created' == created
    ensures isValid ==> Collected(template, memory.graph, command, seen + [t], inst', created', arcs')
  {
    isValid, inst', created', arcs' := true, inst, created, arcs;
    var ty := template[t].ty;
    match RoleOf(ty) {
      case VarArc =>
        CollectedArc(template, memory.graph, command, seen, inst, created, arcs, t);
        arcs' := arcs + [t];
      case VarNode =>
        VarNodeIsNoConnector(ty);
        ghost var before := memory.graph;
        var node := memory.GenerateNode(UpConst(ty));
        CollectedNode(template, before, memory.graph, command, seen, inst, created, arcs, t, node);
        inst', created' := inst[t := node], created + [node];
      case Ignored =>
        CollectedNothing(template, memory.graph, command, seen, inst, created, arcs, t);
      case Constant =>
        var index := ArgumentIndex(command.argumentKeys, t);
        if index < |command.argumentKeys| && index >= |command.arguments| {
          return false, inst, created, arcs;
        }
        CollectedConstant(template, memory.graph, command, seen, inst, created, arcs, t);
        inst' := inst[t := if index < |command.argumentKeys| then command.arguments[index] else t];
    }
  }

  method CollectItems(memory: ScMemory, command: Command)
    returns (isValid: bool, inst: map<Addr, Addr>, created: seq<Addr>, arcs: seq<Addr>)
    requires Valid(memory.graph, command)
    modifies memory
    ensures isValid <==> NoneMissing(old(memory.graph), command, command.items)
    ensures Wf(memory.graph) && Extends(old(memory.graph), memory.graph, Members(created))
    ensures isValid ==> Collected(old(memory.graph), memory.graph, command, command.items, inst, created, arcs)
  {
    var template := memory.graph;
    isValid, inst, created, arcs := true, map[], [], [];
    var i := 0;
    while i < |command.items|
      invariant 0 <= i <= |command.items| && Wf(memory.graph)
      invariant Collected(template, memory.graph, command, command.items[..i], inst, created, arcs)
    {
      var t := command.items[i];
      ItemFacts(template, command, i);
      isValid, inst, created, arcs :=
        CollectItem(memory, template, command, command.items[..i], t, inst, created, arcs);
      if !isValid {
        return;
      }
      i := i + 1;
    }
    assert command.items[..i] == command.items;
  }

  lemma CollectedNothing(
      g: Graph, after: Graph, command: Command, seen: seq<Addr>, inst: map<Addr, Addr>, created: seq<Addr>,
      arcs: seq<Addr>, t: Addr)
    requires Collected(g, after, command, seen, inst, created, arcs) && t in g
    requires RoleOf(g[t].ty) == Ignored
    ensures Collected(g, after, command, seen + [t], inst, created, arcs)
  {
    SeenOneMore(g, seen, t);
  }

  lemma SeenOneMore(g: Graph, seen: seq<Addr>, t: Addr)
    requires t in g
    ensures forall role ::
              Having(g, seen + [t], role) == Having(g, seen, role) + if RoleOf(g[t].ty) == role then {t} else {}
  {
  }

  lemma CollectedArc(
      g: Graph, after: Graph, command: Command, seen: seq<Addr>, inst: map<Addr, Addr>, created: seq<Addr>,
      arcs: seq<Addr>, t: Addr)
    requires Collected(g, after, command, seen, inst, created, arcs) && t in g && t !in seen
    requires RoleOf(g[t].ty) == VarArc
    ensures Collected(g, after, command, seen + [t], inst, created, arcs + [t])
  {
    SeenOneMore(g, seen, t);
    MembersConcat(arcs, [t]);
    assert Members([t]) == {t};
    assert forall i: nat :: i < |arcs| ==> arcs[i] in Members(arcs);
  }

  lemma MappedNode(g: Graph, before: Graph, after: Graph, command: Command, inst: map<Addr, Addr>, t: Addr, node: Addr)
    requires Mapped(g, before, command, inst) && t in g && t !in inst && RoleOf(g[t].ty) == VarNode
    requires g.Keys <= before.Keys && node !in before && after == before[node := Node(UpConst(g[t].ty) | NODE)]
    ensures Mapped(g, after, command, inst[t := node])
  {
    var inst' := inst[t := node];
    forall u <- inst' ensures u in g && NodeImage(g, after, command, inst', u) {
      assert u == t || NodeImage(g, before, command, inst, u);
    }
  }

  lemma CollectedNode(
      g: Graph, before: Graph, after: Graph, command: Command, seen: seq<Addr>, inst: map<Addr, Addr>,
      created: seq<Addr>, arcs: seq<Addr>, t: Addr, node: Addr)
    requires Collected(g, before, command, seen, inst, created, arcs) && t in g && t !in seen
    requires RoleOf(g[t].ty) == VarNode && node !in before
    requires after == before[node := Node(UpConst(g[t].ty) | NODE)]
    ensures Collected(g, after, command, seen + [t], inst[t := node], created + [node], arcs)
  {
    SeenOneMore(g, seen, t);
    MembersConcat(created, [node]);
    assert Members([node]) == {node};
    MappedNode(g, before, after, command, inst, t, node);
    ImagesGrow(inst, Having(g, seen, VarNode), t, node);
  }

  lemma ImagesGrow(inst: map<Addr, Addr>, ts: set<Addr>, t: Addr, node: Addr)
    requires t !in ts
    ensures Images(inst[t := node], ts + {t}) == Images(inst, ts) + {node}
  {
    var inst' := inst[t := node];
    assert forall u <- ts :: (u in inst <==> u in inst') && (u in inst ==> inst'[u] == inst[u]);
    assert t in inst' && inst'[t] == node;
  }

  lemma ImagesKept(inst: map<Addr, Addr>, ts: set<Addr>, t: Addr, image: Addr)
    requires t !in ts
    ensures Images(inst[t := image], ts) == Images(inst, ts)
  {
    var inst' := inst[t := image];
    assert forall u <- ts :: (u in inst <==> u in inst') && (u in inst ==> inst'[u] == inst[u]);
  }

  lemma MappedConstant(g: Graph, after: Graph, command: Command, inst: map<Addr, Addr>, t: Addr)
    requires Mapped(g, after, command, inst) && t in g && t !in inst && RoleOf(g[t].ty) == Constant
    ensures Mapped(g, after, command, inst[t := ConstantImage(command, t)])
  {
    var inst' := inst[t := ConstantImage(command, t)];
    forall u <- inst' ensures u in g && NodeImage(g, after, command, inst', u) {
      assert u == t || NodeImage(g, after, command, inst, u);
    }
  }

  lemma CollectedConstant(
      g: Graph, after: Graph, command: Command, seen: seq<Addr>, inst: map<Addr, Addr>, created: seq<Addr>,
      arcs: seq<Addr>, t: Addr)
    requires Collected(g, after, command, seen, inst, created, arcs) && t in g && t !in seen
    requires RoleOf(g[t].ty) == Constant && !IsMissing(command, t)
    ensures Collected(g, after, command, seen + [t], inst[t := ConstantImage(command, t)], created, arcs)
  {
    SeenOneMore(g, seen, t);
    MappedConstant(g, after, command, inst, t);
    assert t !in Having(g, seen, VarNode);
    ImagesKept(inst, Having(g, seen, VarNode), t, ConstantImage(command, t));
  }

  lemma VarNodeIsNoConnector(ty: ScType)
    requires RoleOf(ty) == VarNode
    ensures !IsConnector(UpConst(ty))
  {
  }

  // ---- Arcs ----

  ghost predicate ArcImage(g: Graph, after: Graph, inst: map<Addr, Addr>, a: Addr) {
    && a in g && a in inst && g[a].begin in inst && g[a].end in inst && inst[a] in after
    && after[inst[a]] == Arc(UpConst(g[a].ty), inst[g[a].begin], inst[g[a].end])
  }

  // Every arc between elements of the set is in it.
  ghost predicate Saturated(g: Graph, arcs: set<Addr>, mapped: set<Addr>) {
    forall a <- arcs :: a in g && g[a].begin in mapped && g[a].end in mapped ==> a in mapped
  }

  // `mapped` is the least saturated set over `start`.
  ghost predicate Least(g: Graph, arcs: set<Addr>, start: set<Addr>, mapped: set<Addr>) {
    forall bound: set<Addr> :: start <= bound && Saturated(g, arcs, bound) ==> mapped <= bound
  }

  ghost predicate Distinct(list: seq<Addr>) {
    forall i: nat, k: nat :: i < k < |list| ==> list[i] != list[k]
  }

  // The images of the arcs `done`, one new element each.
  ghost predicate Drawn(g: Graph, before: Graph, after: Graph, inst: map<Addr, Addr>, done: set<Addr>) {
    && done <= inst.Keys
    && (forall a <- done :: ArcImage(g, after, inst, a) && inst[a] !in before)
    && (forall a <- done, b <- done :: inst[a] == inst[b] ==> a == b)
    && Extends(before, after, Images(inst, done))
  }

  // The worklist holds the arcs without an image.
  ghost predicate Queued(nodes: map<Addr, Addr>, arcs: set<Addr>, inst: map<Addr, Addr>, waiting: seq<Addr>) {
    && Members(waiting) <= arcs && Distinct(waiting)
    && arcs !! nodes.Keys && inst.Keys == nodes.Keys + (arcs - Members(waiting))
    && forall t <- nodes :: inst[t] == nodes[t]
  }

  ghost predicate Working(
      g: Graph, nodes: map<Addr, Addr>, before: Graph, after: Graph, arcs: set<Addr>, inst: map<Addr, Addr>,
      waiting: seq<Addr>)
  {
    && (forall t <- inst :: inst[t] in after)
    && Queued(nodes, arcs, inst, waiting)
    && Drawn(g, before, after, inst, arcs - Members(waiting))
    && Least(g, arcs, nodes.Keys, inst.Keys)
  }

  predicate Ready(g: Graph, inst: map<Addr, Addr>, a: Addr) {
    a in g && g[a].begin in inst && g[a].end in inst
  }

  ghost predicate NoneReady(g: Graph, inst: map<Addr, Addr>, list: seq<Addr>) {
    forall a {:trigger Ready(g, inst, a)} :: a in list ==> !Ready(g, inst, a)
  }

  lemma NoneReadyMore(g: Graph, inst: map<Addr, Addr>, list: seq<Addr>, j: nat)
    requires j < |list| && !Ready(g, inst, list[j])
    ensures NoneReady(g, inst, list[..j]) ==> NoneReady(g, inst, list[..j + 1])
  {
    assert list[..j + 1] == list[..j] + [list[j]];
  }

  ghost predicate TemplateArcs(g: Graph, arcs: set<Addr>) {
    forall a <- arcs :: a in g && ConnectorType(g[a].ty)
  }

  // The arc is generated between the images of its ends and leaves the worklist.
  method ProcessArc(
      memory: ScMemory, template: Graph, ghost nodes: map<Addr, Addr>, ghost before: Graph, ghost arcs: set<Addr>,
      inst: map<Addr, Addr>, waiting: seq<Addr>, j: nat)
    returns (more: map<Addr, Addr>, rest: seq<Addr>)
    requires TemplateArcs(template, arcs) && Working(template, nodes, before, memory.graph, arcs, inst, waiting)
    requires Wf(memory.graph) && j < |waiting| && Ready(template, inst, waiting[j])
    modifies memory
    ensures Wf(memory.graph)
    ensures Working(template, nodes, before, memory.graph, arcs, more, rest)
    ensures |rest| == |waiting| - 1
  {
    var a := waiting[j];
    assert a in Members(waiting);
    UpConstKeepsKind(template[a].ty);
    ghost var was := memory.graph;
    var image := memory.GenerateConnector(UpConst(template[a].ty), inst[template[a].begin], inst[template[a].end]);
    more, rest := inst[a := image], waiting[..j] + waiting[j + 1..];
    WorkingStep(template, nodes, before, was, memory.graph, arcs, inst, waiting, j, image, more, rest);
  }

  // One pass over the worklist.
  method ProcessPass(
      memory: ScMemory, template: Graph, ghost nodes: map<Addr, Addr>, ghost before: Graph, ghost arcs: set<Addr>,
      start: map<Addr, Addr>, list: seq<Addr>)
    returns (inst: map<Addr, Addr>, waiting: seq<Addr>)
    requires TemplateArcs(template, arcs) && Working(template, nodes, before, memory.graph, arcs, start, list)
    requires Wf(memory.graph)
    modifies memory
    ensures Wf(memory.graph)
    ensures Working(template, nodes, before, memory.graph, arcs, inst, waiting) && |waiting| <= |list|
    ensures |waiting| == |list| ==> NoneReady(template, inst, waiting)
  {
    inst, waiting := start, list;
    var j := 0;
    while j < |waiting|
      invariant 0 <= j <= |waiting| <= |list| && Wf(memory.graph)
      invariant Working(template, nodes, before, memory.graph, arcs, inst, waiting)
      invariant |waiting| == |list| ==> NoneReady(template, inst, waiting[..j])
      decreases |waiting| - j
    {
      if Ready(template, inst, waiting[j]) {
        inst, waiting := ProcessArc(memory, template, nodes, before, arcs, inst, waiting, j);
      } else {
        NoneReadyMore(template, inst, waiting, j);
        j := j + 1;
      }
    }
    assert waiting[..j] == waiting;
  }

  lemma Without(waiting: seq<Addr>, j: nat)
    requires j < |waiting| && Distinct(waiting)
    ensures
      var rest := waiting[..j] + waiting[j + 1..];
      Members(rest) == Members(waiting) - {waiting[j]} && Distinct(rest)
  {
    var rest := waiting[..j] + waiting[j + 1..];
    forall x ensures x in rest <==> x in waiting && x != waiting[j] {
      if x in waiting && x != waiting[j] {
        var t :| 0 <= t < |waiting| && waiting[t] == x;
        assert rest[if t < j then t else t - 1] == x;
      }
      if x in rest {
        var t :| 0 <= t < |rest| && rest[t] == x;
        assert waiting[if t < j then t else t + 1] == x;
      }
    }
  }

  lemma LeastGrows(g: Graph, arcs: set<Addr>, start: set<Addr>, mapped: set<Addr>, a: Addr)
    requires Least(g, arcs, start, mapped) && a in arcs && a in g && g[a].begin in mapped && g[a].end in mapped
    ensures Least(g, arcs, start, mapped + {a})
  {
  }

  lemma StillDrawn(g: Graph, was: Graph, after: Graph, inst: map<Addr, Addr>, a: Addr, image: Addr, b: Addr)
    requires ArcImage(g, was, inst, b) && a !in inst && image !in was && Preserved(was, after)
    ensures ArcImage(g, after, inst[a := image], b) && inst[b] != image
  {
  }

  lemma DrawnStep(
      g: Graph, before: Graph, was: Graph, after: Graph, inst: map<Addr, Addr>, done: set<Addr>, a: Addr, image: Addr)
    requires Drawn(g, before, was, inst, done) && a !in done && a !in inst && Ready(g, inst, a) && image !in was
    requires after == was[image := Arc(UpConst(g[a].ty), inst[g[a].begin], inst[g[a].end])]
    ensures Drawn(g, before, after, inst[a := image], done + {a})
  {
    ImagesGrow(inst, done, a, image);
    forall b <- done
      ensures ArcImage(g, after, inst[a := image], b) && inst[b] !in before && inst[b] != image
    {
      StillDrawn(g, was, after, inst, a, image, b);
    }
    assert ArcImage(g, after, inst[a := image], a);
  }

  lemma QueuedStep(
      nodes: map<Addr, Addr>, arcs: set<Addr>, inst: map<Addr, Addr>, waiting: seq<Addr>, j: nat, image: Addr)
    requires Queued(nodes, arcs, inst, waiting) && j < |waiting|
    ensures waiting[j] in arcs - inst.Keys
    ensures Queued(nodes, arcs, inst[waiting[j] := image], waiting[..j] + waiting[j + 1..])
    ensures arcs - Members(waiting[..j] + waiting[j + 1..]) == arcs - Members(waiting) + {waiting[j]}
  {
    assert waiting[j] in Members(waiting);
    Without(waiting, j);
  }

  lemma WorkingStep(
      g: Graph, nodes: map<Addr, Addr>, before: Graph, was: Graph, after: Graph, arcs: set<Addr>,
      inst: map<Addr, Addr>, waiting: seq<Addr>, j: nat, image: Addr, inst': map<Addr, Addr>, rest: seq<Addr>)
    requires Working(g, nodes, before, was, arcs, inst, waiting) && j < |waiting| && Ready(g, inst, waiting[j])
    requires image !in was
    requires after == was[image := Arc(UpConst(g[waiting[j]].ty), inst[g[waiting[j]].begin], inst[g[waiting[j]].end])]
    requires inst' == inst[waiting[j] := image] && rest == waiting[..j] + waiting[j + 1..]
    ensures Working(g, nodes, before, after, arcs, inst', rest)
  {
    var a, done := waiting[j], arcs - Members(waiting);
    assert Queued(nodes, arcs, inst', rest) && arcs - Members(rest) == done + {a} && a in arcs - inst.Keys by {
      QueuedStep(nodes, arcs, inst, waiting, j, image);
    }
    assert Least(g, arcs, nodes.Keys, inst'.Keys) by {
      LeastGrows(g, arcs, nodes.Keys, inst.Keys, a);
      assert inst'.Keys == inst.Keys + {a};
    }
    assert Drawn(g, before, after, inst', done + {a}) by {
      DrawnStep(g, before, was, after, inst, done, a, image);
    }
  }

  // Pass after pass, until one creates nothing.
  method ProcessArcs(memory: ScMemory, template: Graph, nodes: map<Addr, Addr>, list: seq<Addr>)
    returns (inst: map<Addr, Addr>, waiting: seq<Addr>)
    requires Wf(memory.graph) && TemplateArcs(template, Members(list)) && Members(list) !! nodes.Keys
    requires Distinct(list)
    requires forall t <- nodes :: nodes[t] in memory.graph
    modifies memory
    ensures Wf(memory.graph)
    ensures Working(template, nodes, old(memory.graph), memory.graph, Members(list), inst, waiting)
    ensures Saturated(template, Members(list), inst.Keys)
  {
    ghost var arcs, before := Members(list), memory.graph;
    inst, waiting := nodes, list;
    assert Images(inst, arcs - Members(waiting)) == {};
    var created := true;
    while created
      invariant Wf(memory.graph)
      invariant Working(template, nodes, before, memory.graph, arcs, inst, waiting)
      invariant !created ==> NoneReady(template, inst, waiting)
      decreases |waiting|, created
    {
      var left;
      inst, left := ProcessPass(memory, template, nodes, before, arcs, inst, waiting);
      created := |left| != |waiting|;
      waiting := left;
    }
    forall a <- arcs | a in template && template[a].begin in inst && template[a].end in inst ensures a in inst {
      assert a in waiting ==> !Ready(template, inst, a);
    }
  }

  // ---- The instance ----

  // What was added to `g` is the node `contour` and membership arcs from it, at least one to each of
  // `contents` and none to anything else.
  ghost predicate IsContour(g: Graph, after: Graph, contour: Addr, contents: set<Addr>) {
    && Preserved(g, after) && contour !in g && contour in after && after[contour] == Node(CONST_NODE_STRUCTURE)
    && (forall x <- after :: x !in g && x != contour ==>
          after[x].end in contents && after[x] == Arc(CONST_PERM_POS_ARC, contour, after[x].end))
    && forall v <- contents :: exists x <- after :: x !in g && after[x] == Arc(CONST_PERM_POS_ARC, contour, v)
  }

  method GenerateContour(memory: ScMemory, inst: map<Addr, Addr>) returns (contour: Addr)
    requires Wf(memory.graph) && forall t <- inst :: inst[t] in memory.graph
    modifies memory
    ensures Wf(memory.graph) && IsContour(old(memory.graph), memory.graph, contour, Images(inst, inst.Keys))
  {
    ghost var g := memory.graph;
    contour := memory.GenerateNode(CONST_NODE_STRUCTURE);
    var left := inst.Keys;
    while left != {}
      invariant left <= inst.Keys && Wf(memory.graph)
      invariant IsContour(g, memory.graph, contour, Images(inst, inst.Keys - left))
      decreases left
    {
      var t :| t in left;
      ghost var was, done := memory.graph, inst.Keys - left;
      var arc := memory.GenerateConnector(CONST_PERM_POS_ARC, contour, inst[t]);
      ContourGrows(g, was, memory.graph, contour, Images(inst, done), arc, inst[t]);
      left := left - {t};
      assert inst.Keys - left == done + {t};
      assert Images(inst, done + {t}) == Images(inst, done) + {inst[t]};
    }
    assert inst.Keys - left == inst.Keys;
  }

  lemma ContourGrows(g: Graph, was: Graph, after: Graph, contour: Addr, contents: set<Addr>, arc: Addr, v: Addr)
    requires IsContour(g, was, contour, contents) && arc !in was
    requires after == was[arc := Arc(CONST_PERM_POS_ARC, contour, v)]
    ensures IsContour(g, after, contour, contents + {v})
  {
    forall w <- contents + {v} ensures exists x <- after :: x !in g && after[x] == Arc(CONST_PERM_POS_ARC, contour, w) {
      if w == v {
        assert arc in after && after[arc] == Arc(CONST_PERM_POS_ARC, contour, w);
      } else {
        var x :| x in was && x !in g && was[x] == Arc(CONST_PERM_POS_ARC, contour, w);
        assert x in after && after[x] == Arc(CONST_PERM_POS_ARC, contour, w);
      }
    }
  }

  datatype Outcome =
    | InvalidParams
    | Instance(inst: map<Addr, Addr>, contour: Addr, unprocessed: seq<Addr>)

  // The map carries the template to its instance: constants and arguments to what they stand for,
  // variable nodes to new nodes, and every variable arc to a new arc between the images of its ends.
  ghost predicate Homomorphism(g: Graph, after: Graph, command: Command, inst: map<Addr, Addr>) {
    forall t <- inst ::
      t in g && match RoleOf(g[t].ty)
                case VarArc => ArcImage(g, after, inst, t) && inst[t] !in g
                case Ignored => false
                case _ => NodeImage(g, after, command, inst, t)
  }

  // Which elements get an image: all constants and variable nodes, and the variable arcs of the least
  // set over them that has every arc between its elements.
  ghost predicate LeastDomain(g: Graph, command: Command, inst: map<Addr, Addr>, unprocessed: seq<Addr>) {
    var start := Having(g, command.items, Constant) + Having(g, command.items, VarNode);
    var arcs := Having(g, command.items, VarArc);
    && Members(unprocessed) <= arcs && inst.Keys == start + (arcs - Members(unprocessed))
    && Saturated(g, arcs, inst.Keys) && Least(g, arcs, start, inst.Keys)
  }

  // What an element of the template stands for in the instance, by its type bits and the keynodes alone.
  ghost predicate StandsFor(g: Graph, after: Graph, command: Command, inst: map<Addr, Addr>, t: Addr)
    requires t in g
  {
    if g[t].ty & VAR == 0 then ConstantStands(command, inst, t)
    else if IsConnector(g[t].ty) then t in inst ==> ArcStands(g, after, inst, t)
    else if g[t].ty & NODE != 0 then NodeStands(g, after, inst, t)
    else t !in inst
  }

  // A constant stands for itself; the i-th keynode for the i-th argument.
  ghost predicate ConstantStands(command: Command, inst: map<Addr, Addr>, t: Addr) {
    && t in inst
    && (t !in command.argumentKeys ==> inst[t] == t)
    && forall i: nat :: FirstAt(command.argumentKeys, i, t) ==>
         i < |command.arguments| && inst[t] == command.arguments[i]
  }

  // A keynode counts where it is listed first.
  predicate FirstAt(keys: seq<Addr>, i: nat, t: Addr) {
    i < |keys| && keys[i] == t && t !in keys[..i]
  }

  // A variable node stands for a new constant node, ...
  ghost predicate NodeStands(g: Graph, after: Graph, inst: map<Addr, Addr>, t: Addr)
    requires t in g
  {
    && t in inst && inst[t] !in g && inst[t] in after
    && MadeConstant(g[t].ty, after[inst[t]].ty, true) && after[inst[t]].begin == after[inst[t]].end == EMPTY
  }

  // ... and a variable arc for a new constant one between what its ends stand for.
  ghost predicate ArcStands(g: Graph, after: Graph, inst: map<Addr, Addr>, t: Addr)
    requires t in g && t in inst
  {
    && inst[t] !in g && inst[t] in after && g[t].begin in inst && g[t].end in inst
    && MadeConstant(g[t].ty, after[inst[t]].ty, false)
    && after[inst[t]].begin == inst[g[t].begin] && after[inst[t]].end == inst[g[t].end]
  }

  lemma FirstIsIndex(keys: seq<Addr>, i: nat, t: Addr)
    requires FirstAt(keys, i, t)
    ensures ArgumentIndex(keys, t) == i
  {
    assert forall j: nat :: j < i ==> keys[j] == keys[..i][j] && keys[j] in keys[..i];
  }

  lemma RoleBits(ty: ScType)
    ensures RoleOf(ty) == Constant <==> ty & VAR == 0
    ensures RoleOf(ty) == VarArc <==> ty & VAR != 0 && IsTemplateArc(ty)
    ensures RoleOf(ty) == VarNode <==> ty & VAR != 0 && !IsTemplateArc(ty) && ty & NODE != 0
  {
  }

  lemma ConstantImageStands(g: Graph, command: Command, inst: map<Addr, Addr>, t: Addr)
    requires t in inst && inst[t] == ConstantImage(command, t) && !IsMissing(command, t)
    ensures ConstantStands(command, inst, t)
  {
    forall i: nat | FirstAt(command.argumentKeys, i, t)
      ensures i < |command.arguments| && inst[t] == command.arguments[i]
    {
      FirstIsIndex(command.argumentKeys, i, t);
    }
  }

  lemma NodeImageStands(g: Graph, after: Graph, inst: map<Addr, Addr>, t: Addr)
    requires t in g && t in inst && inst[t] !in g && inst[t] in after && after[inst[t]] == Node(UpConst(g[t].ty) | NODE)
    ensures NodeStands(g, after, inst, t)
  {
    ConstantNodeForm(g[t].ty);
  }

  lemma ArcImageStands(g: Graph, after: Graph, inst: map<Addr, Addr>, t: Addr)
    requires ArcImage(g, after, inst, t) && inst[t] !in g
    ensures ArcStands(g, after, inst, t)
  {
    ConstantForm(g[t].ty);
  }

  lemma AllStand(g: Graph, after: Graph, command: Command, inst: map<Addr, Addr>, unprocessed: seq<Addr>, t: Addr)
    requires Valid(g, command) && NoneMissing(g, command, command.items) && t in command.items && t in g
    requires Homomorphism(g, after, command, inst) && LeastDomain(g, command, inst, unprocessed)
    ensures StandsFor(g, after, command, inst, t)
  {
    RoleBits(g[t].ty);
    match RoleOf(g[t].ty)
    case Constant =>
      assert t in Having(g, command.items, Constant);
      ConstantImageStands(g, command, inst, t);
    case VarNode =>
      assert t in Having(g, command.items, VarNode);
      NodeImageStands(g, after, inst, t);
    case VarArc =>
      if t in inst {
        ArcImageStands(g, after, inst, t);
      }
    case Ignored =>
  }

  // A constant keynode stands for an argument that was not given.
  ghost predicate LacksArgument(g: Graph, command: Command) {
    exists i: nat, t :: t in command.items && t in g && g[t].ty & VAR == 0
                        && FirstAt(command.argumentKeys, i, t) && i >= |command.arguments|
  }

  lemma MissingIsLacking(g: Graph, command: Command)
    requires Valid(g, command)
    ensures LacksArgument(g, command) <==> !NoneMissing(g, command, command.items)
  {
    if LacksArgument(g, command) {
      var i: nat, t :| t in command.items && t in g && g[t].ty & VAR == 0
                       && FirstAt(command.argumentKeys, i, t) && i >= |command.arguments|;
      FirstIsIndex(command.argumentKeys, i, t);
      RoleBits(g[t].ty);
      assert MissingAt(g, command, t);
    }
    if t :| t in command.items && (t !in g || MissingAt(g, command, t)) {
      RoleBits(g[t].ty);
      var i := ArgumentIndex(command.argumentKeys, t);
      assert FirstAt(command.argumentKeys, i, t);
    }
  }

  method GenerateInstance(memory: ScMemory, command: Command) returns (r: Outcome)
    requires Valid(memory.graph, command)
    modifies memory
    ensures r.InvalidParams? <==> LacksArgument(old(memory.graph), command)
    ensures r.InvalidParams? ==> memory.graph == old(memory.graph)
    ensures Wf(memory.graph) && Preserved(old(memory.graph), memory.graph)
    ensures r.Instance? ==>
              && Homomorphism(old(memory.graph), memory.graph, command, r.inst)
              && LeastDomain(old(memory.graph), command, r.inst, r.unprocessed)
    ensures r.Instance? ==>
              forall t <- command.items ::
                t in old(memory.graph) && StandsFor(old(memory.graph), memory.graph, command, r.inst, t)
    ensures r.Instance? ==>
              exists between ::
                && Preserved(old(memory.graph), between) && r.contour !in old(memory.graph)
                && IsContour(between, memory.graph, r.contour, Images(r.inst, r.inst.Keys))
  {
    ghost var g := memory.graph;
    var template := memory.graph;
    MissingIsLacking(g, command);
    var isValid, nodes, created, arcs := CollectItems(memory, command);
    if !isValid {
      EraseInOrder(memory, created, g);
      return InvalidParams;
    }
    ghost var between := memory.graph;
    CollectedImages(g, between, command, nodes, created, arcs);
    var inst, unprocessed := ProcessArcs(memory, template, nodes, arcs);
    ghost var drawn := memory.graph;
    CollectedAndDrawn(g, between, drawn, command, nodes, created, arcs, inst, unprocessed);
    var contour := GenerateContour(memory, inst);
    HomomorphismKept(g, drawn, memory.graph, command, inst);
    forall t <- command.items ensures t in g && StandsFor(g, memory.graph, command, inst, t) {
      AllStand(g, memory.graph, command, inst, unprocessed, t);
    }
    return Instance(inst, contour, unprocessed);
  }

  lemma CollectedImages(
      g: Graph, after: Graph, command: Command, nodes: map<Addr, Addr>, created: seq<Addr>, arcs: seq<Addr>)
    requires Valid(g, command) && Collected(g, after, command, command.items, nodes, created, arcs)
    ensures forall t <- nodes :: nodes[t] in after
    ensures TemplateArcs(g, Members(arcs)) && Members(arcs) !! nodes.Keys && Distinct(arcs)
  {
    forall t <- nodes ensures nodes[t] in after {
      assert NodeImage(g, after, command, nodes, t);
    }
    forall a <- Members(arcs) ensures a in g && ConnectorType(g[a].ty) {
      assert a in Having(g, command.items, VarArc);
      assert a in command.items;
    }
  }

  lemma CollectedAndDrawn(
      g: Graph, between: Graph, after: Graph, command: Command, nodes: map<Addr, Addr>, created: seq<Addr>,
      arcs: seq<Addr>, inst: map<Addr, Addr>, unprocessed: seq<Addr>)
    requires Collected(g, between, command, command.items, nodes, created, arcs)
    requires Working(g, nodes, between, after, Members(arcs), inst, unprocessed)
    requires Saturated(g, Members(arcs), inst.Keys)
    ensures Homomorphism(g, after, command, inst) && LeastDomain(g, command, inst, unprocessed) && Preserved(g, after)
  {
    forall t <- inst
      ensures t in g && match RoleOf(g[t].ty)
                        case VarArc => ArcImage(g, after, inst, t) && inst[t] !in g
                        case Ignored => false
                        case _ => NodeImage(g, after, command, inst, t)
    {
      if t in nodes {
        assert NodeImage(g, between, command, nodes, t);
      } else {
        assert ArcImage(g, after, inst, t);
      }
    }
  }

  lemma HomomorphismKept(g: Graph, drawn: Graph, after: Graph, command: Command, inst: map<Addr, Addr>)
    requires Homomorphism(g, drawn, command, inst) && Preserved(drawn, after)
    ensures Homomorphism(g, after, command, inst)
  {
  }

  // ---- Founded arcs ----

  // An element to start with, or an arc of a lower rank.
  predicate Below(start: set<Addr>, rank: map<Addr, nat>, bound: nat, end: Addr) {
    end in start || (end in rank && rank[end] < bound)
  }

  predicate IsFounded(g: Graph, start: set<Addr>, rank: map<Addr, nat>, a: Addr)
    requires a in rank
  {
    a in g && Below(start, rank, rank[a], g[a].begin) && Below(start, rank, rank[a], g[a].end)
  }

  // The ranks found the arcs on `start`: no arc hangs on itself, however indirectly.
  ghost predicate Founds(g: Graph, start: set<Addr>, rank: map<Addr, nat>) {
    forall a {:trigger IsFounded(g, start, rank, a)} :: a in rank ==> IsFounded(g, start, rank, a)
  }

  lemma {:induction false} FoundedIsIn(
      g: Graph, start: set<Addr>, rank: map<Addr, nat>, mapped: set<Addr>, a: Addr)
    requires Founds(g, start, rank) && start <= mapped && Saturated(g, rank.Keys, mapped) && a in rank
    ensures a in mapped
    decreases rank[a]
  {
    assert IsFounded(g, start, rank, a);
    if g[a].begin !in start {
      FoundedIsIn(g, start, rank, mapped, g[a].begin);
    }
    if g[a].end !in start {
      FoundedIsIn(g, start, rank, mapped, g[a].end);
    }
  }

  lemma OneMoreRank(g: Graph, start: set<Addr>, rank: map<Addr, nat>, a: Addr, n: nat)
    requires Founds(g, start, rank) && (forall b <- rank :: rank[b] < n) && a in g && a !in rank
    requires g[a].begin in start + rank.Keys && g[a].end in start + rank.Keys
    ensures Founds(g, start, rank[a := n])
  {
    var more := rank[a := n];
    forall b | b in more ensures IsFounded(g, start, more, b) {
      if b != a {
        assert IsFounded(g, start, rank, b);
      }
    }
  }

  // The least saturated set can be ranked: by the order in which its arcs become ready.
  lemma {:induction false} LeastIsRanked(
      g: Graph, arcs: set<Addr>, start: set<Addr>, mapped: set<Addr>, rank: map<Addr, nat>, n: nat)
    returns (full: map<Addr, nat>)
    requires Least(g, arcs, start, mapped) && rank.Keys <= arcs && Founds(g, start, rank)
    requires forall a <- rank :: rank[a] < n
    ensures full.Keys <= arcs && Founds(g, start, full) && mapped <= start + full.Keys
    decreases arcs - rank.Keys
  {
    if a :| a in arcs && a in g && a !in start + rank.Keys
            && g[a].begin in start + rank.Keys && g[a].end in start + rank.Keys {
      OneMoreRank(g, start, rank, a, n);
      assert arcs - rank[a := n].Keys == (arcs - rank.Keys) - {a} && a in arcs - rank.Keys;
      full := LeastIsRanked(g, arcs, start, mapped, rank[a := n], n + 1);
    } else {
      full := rank;
      assert Saturated(g, arcs, start + rank.Keys);
    }
  }

  // No variable arc is left over exactly when ranks found all of them on the elements that have
  // images from the start.
  lemma NothingLeftOver(g: Graph, command: Command, inst: map<Addr, Addr>, unprocessed: seq<Addr>)
    requires LeastDomain(g, command, inst, unprocessed)
    ensures
      var start := Having(g, command.items, Constant) + Having(g, command.items, VarNode);
      var arcs := Having(g, command.items, VarArc);
      unprocessed == [] <==> exists rank: map<Addr, nat> :: rank.Keys == arcs && Founds(g, start, rank)
  {
    var start := Having(g, command.items, Constant) + Having(g, command.items, VarNode);
    var arcs := Having(g, command.items, VarArc);
    assert start !! arcs;
    assert unprocessed == [] <==> Members(unprocessed) == {} by {
      assert unprocessed != [] ==> unprocessed[0] in Members(unprocessed);
    }
    if unprocessed == [] {
      var rank := LeastIsRanked(g, arcs, start, inst.Keys, map[], 0);
      assert rank.Keys == arcs;
    }
    if rank: map<Addr, nat> :| rank.Keys == arcs && Founds(g, start, rank) {
      forall a <- arcs ensures a in inst.Keys {
        FoundedIsIn(g, start, rank, inst.Keys, a);
      }
      assert Members(unprocessed) == {};
    }
  }
}
