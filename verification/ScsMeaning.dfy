// What a successful translation says about its document, and where it merges elements.
module ScsMeaning {
  import opened Wrappers
  import opened ScsDocument
  import opened ScsWriter

  // ---- The ends of what is written ----

  // Every connector written since `before` has a type, and both of its ends are written.
  ghost predicate EndsWritten(doc: Document, before: set<Id>, after: set<Id>) {
    && before <= after
    && forall c <- after - before :: c in doc && (IsConnector(doc[c]) ==> Convertible(doc[c]) && Ready(doc, c, after))
  }

  lemma EndsJoin(doc: Document, a: set<Id>, b: set<Id>, c: set<Id>)
    requires EndsWritten(doc, a, b) && EndsWritten(doc, b, c)
    ensures EndsWritten(doc, a, c)
  {
    assert forall x <- c - a :: x in b - a || x in c - b;
  }

  lemma {:induction false} GrowEnds(doc: Document, connectors: set<Id>, written: set<Id>)
    requires connectors <= doc.Keys && forall c <- connectors :: Convertible(doc[c])
    ensures EndsWritten(doc, written, Grow(doc, connectors, written))
    decreases connectors - written
  {
    var ready := set c <- connectors | c !in written && Ready(doc, c, written);
    if ready != {} {
      GrowEnds(doc, connectors, written + ready);
      assert EndsWritten(doc, written, written + ready);
      EndsJoin(doc, written, written + ready, Grow(doc, connectors, written + ready));
    }
  }

  lemma {:induction false} VisitEnds(doc: Document, e: Scg, written: set<Id>)
    requires ValidTree(doc, [e]) && Visit(doc, e, written).Some?
    ensures EndsWritten(doc, written, Visit(doc, e, written).value)
    decreases e, 0
  {
    assert e in [e];
    if doc[e.id].tag == Contour {
      WriteEnds(doc, e.children, written);
      var inner := WriteSpec(doc, e.children, written).value;
      EndsJoin(doc, written, inner, inner + {e.id});
    }
  }

  lemma {:induction false} FirstPhaseEnds(doc: Document, elements: seq<Scg>, written: set<Id>)
    requires ValidTree(doc, elements) && FirstPhase(doc, elements, written).Some?
    ensures EndsWritten(doc, written, FirstPhase(doc, elements, written).value)
    decreases elements, 0
  {
    if elements != [] {
      var n := |elements| - 1;
      ValidPart(doc, elements, n);
      FirstPhaseEnds(doc, elements[..n], written);
      var before := FirstPhase(doc, elements[..n], written).value;
      VisitEnds(doc, elements[n], before);
      EndsJoin(doc, written, before, FirstPhase(doc, elements, written).value);
    }
  }

  lemma {:induction false} WriteEnds(doc: Document, elements: seq<Scg>, written: set<Id>)
    requires ValidTree(doc, elements) && WriteSpec(doc, elements, written).Some?
    ensures EndsWritten(doc, written, WriteSpec(doc, elements, written).value)
    decreases elements, 1
  {
    FirstPhaseEnds(doc, elements, written);
    var first := FirstPhase(doc, elements, written).value;
    ValidPart(doc, elements, 0);
    GrowEnds(doc, ConnectorsOf(doc, elements) - first, first);
    EndsJoin(doc, written, first, WriteSpec(doc, elements, written).value);
  }

  // ---- What the statements tell ----

  function TypeOfWire(wire: Wire): string { if wire.class_ == "" then wire.token else wire.class_ }

  // The name stands for the element, and for no other but those the writer merges with it.
  ghost predicate Points(doc: Document, written: set<Id>, name: string, end: Id)
    requires written <= doc.Keys
  {
    end in written && forall x <- written :: name == NameOf(doc, x) <==> x == end || Merged(doc, x, end)
  }

  // The connector is found by its alias, which no other element has, with its type and both ends.
  ghost predicate Rebuilt(doc: Document, written: set<Id>, env: Env, c: Id)
    requires written <= doc.Keys && c in doc
  {
    var alias := NameOf(doc, c);
    && alias in env && (forall x <- written :: NameOf(doc, x) == alias <==> x == c)
    && TypeOfWire(env[alias]) == doc[c].scsType
    && Points(doc, written, env[alias].src, doc[c].source)
    && Points(doc, written, env[alias].tgt, doc[c].target)
  }

  // Executing the statements from scratch never meets an unbound alias and rebuilds exactly the
  // connectors among `written`; nothing is emitted twice, and what is inside a contour, at any depth,
  // is emitted inside its block and nowhere else.
  ghost predicate Tells(doc: Document, elements: seq<Scg>, written: set<Id>, stmts: seq<Stmt>)
    requires written <= doc.Keys
  {
    && Nests(doc, elements, stmts)
    && ExecAll(stmts, map[]).Some?
    && ExecAll(stmts, map[]).value.Keys == NamesOf(doc, written)
    && (forall c <- written :: IsConnector(doc[c]) ==> Rebuilt(doc, written, ExecAll(stmts, map[]).value, c))
    && Emitted(stmts) == multiset(written)
    && forall stmt <- stmts :: Says(doc, stmt)
  }

  lemma ConnectorRebuilt(doc: Document, written: set<Id>, c: Id)
    requires ValidDocument(doc) && written <= doc.Keys && c in written && IsConnector(doc[c])
    requires Ready(doc, c, written) && Convertible(doc[c])
    ensures Rebuilt(doc, written, EnvOf(doc, written), c)
  {
    EnvHasEveryConnector(doc, written, c);
    forall x <- written
      ensures NameOf(doc, x) == NameOf(doc, c) <==> x == c
      ensures NameOf(doc, doc[c].source) == NameOf(doc, x) <==> x == doc[c].source || Merged(doc, x, doc[c].source)
      ensures NameOf(doc, doc[c].target) == NameOf(doc, x) <==> x == doc[c].target || Merged(doc, x, doc[c].target)
    {
      OneName(doc, x, c);
      OneName(doc, x, doc[c].source);
      OneName(doc, x, doc[c].target);
    }
  }

  lemma MeaningPreserved(doc: Document, elements: seq<Scg>, stmts: seq<Stmt>, written: set<Id>)
    requires ValidDocument(doc) && ValidTree(doc, elements) && WriteSpec(doc, elements, {}) == Some(written)
    requires Progress(doc, {}, stmts, written) && Nests(doc, elements, stmts)
    ensures written == SetOf(Writable(doc, elements)) && Tells(doc, elements, written, stmts)
  {
    WriteCovers(doc, elements, {});
    WriteEnds(doc, elements, {});
    assert EnvOf(doc, {}) == map[];
    assert written - {} == written;
    forall c <- written | IsConnector(doc[c]) ensures Rebuilt(doc, written, EnvOf(doc, written), c) {
      assert c in written - {};
      ConnectorRebuilt(doc, written, c);
    }
  }

  // ---- What each statement carries ----

  // A statement of the text, at any depth.
  ghost predicate Within(stmt: Stmt, stmts: seq<Stmt>)
    decreases stmts
  {
    exists s <- stmts :: s == stmt || (s.Block? && Within(stmt, s.body))
  }

  // The statement that a name is introduced by.
  predicate Introduces(stmt: Stmt, x: Id, name: string) {
    match stmt
    case Declare(n, _, of) => of == x && n == name
    case Content(n, _, of) => of == x && n == name
    case Edge(alias, _, _, _, of) => of == x && alias == name
    case Class(_, _) => false
    case Block(n, _, of) => of == x && n == name
  }

  lemma {:induction false} SaysWithin(doc: Document, stmts: seq<Stmt>, stmt: Stmt)
    requires (forall s <- stmts :: Says(doc, s)) && Within(stmt, stmts)
    ensures Says(doc, stmt)
    decreases stmts
  {
    var s :| s in stmts && (s == stmt || (s.Block? && Within(stmt, s.body)));
    if s != stmt {
      SaysWithin(doc, s.body, stmt);
    }
  }

  lemma EmittedSplit(stmts: seq<Stmt>, x: Id)
    requires x in Emitted(stmts)
    ensures stmts != [] && stmts[|stmts| - 1] in stmts
    ensures x in Emitted(stmts[..|stmts| - 1]) || x in EmittedBy(stmts[|stmts| - 1])
  {
  }

  lemma WithinMore(stmt: Stmt, stmts: seq<Stmt>, i: nat)
    requires i <= |stmts| && Within(stmt, stmts[..i])
    ensures Within(stmt, stmts)
  {
    var s :| s in stmts[..i] && (s == stmt || (s.Block? && Within(stmt, s.body)));
    assert s in stmts;
  }

  lemma {:induction false} EmittedWithin(doc: Document, stmts: seq<Stmt>, x: Id) returns (stmt: Stmt)
    requires x in Emitted(stmts) && forall s <- stmts :: Says(doc, s)
    ensures Within(stmt, stmts) && Says(doc, stmt) && x in doc && Introduces(stmt, x, NameOf(doc, x))
    decreases stmts, 1
  {
    EmittedSplit(stmts, x);
    if x in Emitted(stmts[..|stmts| - 1]) {
      stmt := EmittedWithin(doc, stmts[..|stmts| - 1], x);
      WithinMore(stmt, stmts, |stmts| - 1);
    } else {
      stmt := EmittedByOne(doc, stmts[|stmts| - 1], x);
    }
  }

  lemma {:induction false} EmittedByOne(doc: Document, s: Stmt, x: Id) returns (stmt: Stmt)
    requires x in EmittedBy(s) && Says(doc, s)
    ensures s == stmt || (s.Block? && Within(stmt, s.body))
    ensures Says(doc, stmt) && x in doc && Introduces(stmt, x, NameOf(doc, x))
    decreases s, 0
  {
    if s.Block? && s.of != x {
      stmt := EmittedWithin(doc, s.body, x);
    } else {
      stmt := s;
    }
  }

  // The element has its own identifier where sc.s can spell it, marked if the element is a variable,
  // and otherwise a name made of its id.
  ghost predicate Named(info: Info, x: Id, name: string) {
    && (info.tag in {Pair, Arc} ==> name == "@connector_" + ReplaceDash(x))
    && (info.tag !in {Pair, Arc} && Usable(info) ==>
          && (!IsVariable(info.ty) || info.idtf[0] == '_' ==> name == info.idtf)
          && (IsVariable(info.ty) && info.idtf[0] != '_' ==> name == "_" + info.idtf))
    && (info.tag !in {Pair, Arc} && !Usable(info) ==>
          && (!IsVariable(info.ty) ==> name == "..el_" + ReplaceDash(x))
          && (IsVariable(info.ty) ==> name == ".._el_" + ReplaceDash(x)))
  }

  function Bracketed(marked: bool, content: string): string {
    if marked then "_[" + content + "]" else "[" + content + "]"
  }

  // A node is declared with its type, a link with its content: strings as they are, numbers in quotes
  // behind their kind, and the brackets of a variable marked.
  ghost predicate Described(info: Info, stmt: Stmt) {
    && (info.tag == Node && info.content.NoContent? ==> stmt.Declare? && stmt.ty == info.scsType)
    && (info.tag == Node && !info.content.NoContent? ==> stmt.Content?)
    && (info.tag == Contour <==> stmt.Block?)
    && (stmt.Content? ==>
          match info.content
          case Str(s) => stmt.text == Bracketed(IsVariable(info.ty), s)
          case Int(s) => stmt.text == Bracketed(IsVariable(info.ty), "\"int64:" + s + "\"")
          case Flt(s) => stmt.text == Bracketed(IsVariable(info.ty), "\"float:" + s + "\"")
          case _ => true)
  }

  // A connector is written between the names of its ends.
  ghost predicate Connects(doc: Document, stmt: Stmt)
    requires stmt.Edge? && stmt.of in doc && doc[stmt.of].source in doc && doc[stmt.of].target in doc
  {
    var info := doc[stmt.of];
    && Named(doc[info.source], info.source, stmt.src) && Named(doc[info.target], info.target, stmt.tgt)
    && (!info.unsupported ==> stmt.token == info.scsType) && (info.unsupported ==> stmt.token == "=>")
  }

  // Each element written has a statement, which carries its name and what else the document says.
  ghost predicate Spelled(doc: Document, stmts: seq<Stmt>, x: Id)
    requires x in doc
  {
    exists stmt, name ::
      && Within(stmt, stmts) && Introduces(stmt, x, name)
      && Named(doc[x], x, name) && Described(doc[x], stmt)
      && (stmt.Edge? <==> doc[x].tag in {Pair, Arc})
      && (stmt.Edge? ==> doc[x].source in doc && doc[x].target in doc && Connects(doc, stmt))
  }

  lemma NameIsNamed(doc: Document, x: Id)
    requires x in doc
    ensures Named(doc[x], x, NameOf(doc, x))
  {
    NameIs(doc, x);
  }

  lemma Brackets(content: string)
    ensures "_" + "[" + content + "]" == Bracketed(true, content)
    ensures "" + "[" + content + "]" == Bracketed(false, content)
  {
    assert "_" + "[" == "_[" && "" + "[" == "[";
  }

  lemma SaysDescribes(doc: Document, stmt: Stmt)
    requires Says(doc, stmt) && !stmt.Class?
    ensures Described(doc[stmt.of], stmt)
  {
    if stmt.Content? {
      match doc[stmt.of].content
      case Str(s) => Brackets(s);
      case Int(s) => Brackets("\"int64:" + s + "\"");
      case Flt(s) => Brackets("\"float:" + s + "\"");
      case _ =>
    }
  }

  lemma SaysConnects(doc: Document, stmt: Stmt)
    requires Says(doc, stmt) && stmt.Edge?
    ensures doc[stmt.of].source in doc && doc[stmt.of].target in doc && Connects(doc, stmt)
  {
    NameIsNamed(doc, doc[stmt.of].source);
    NameIsNamed(doc, doc[stmt.of].target);
  }

  lemma AllSpelled(doc: Document, elements: seq<Scg>, stmts: seq<Stmt>, written: set<Id>, x: Id)
    requires written <= doc.Keys && Tells(doc, elements, written, stmts) && x in written
    ensures Spelled(doc, stmts, x)
  {
    StatementOf(doc, stmts, x);
  }

  lemma StatementOf(doc: Document, stmts: seq<Stmt>, x: Id)
    requires (forall s <- stmts :: Says(doc, s)) && x in Emitted(stmts)
    ensures x in doc && Spelled(doc, stmts, x)
  {
    var stmt := EmittedWithin(doc, stmts, x);
    NameIsNamed(doc, x);
    SaysDescribes(doc, stmt);
    if stmt.Edge? {
      SaysConnects(doc, stmt);
    }
    assert Introduces(stmt, x, NameOf(doc, x));
  }

  // A translation from scratch: what it writes tells the document, up to elements with one name, and
  // every element is spelled as it is.
  method Translate(doc: Document, elements: seq<Scg>) returns (r: Outcome)
    requires ValidDocument(doc) && ValidTree(doc, elements) && Once(doc, elements, {})
    ensures r.Written? <==> WriteSpec(doc, elements, {}).Some?
    ensures r.Written? ==> r.written <= doc.Keys && r.written == SetOf(Writable(doc, elements))
    ensures r.Written? ==> Tells(doc, elements, r.written, r.stmts)
    ensures r.Written? ==> forall x <- r.written :: Spelled(doc, r.stmts, x)
  {
    r := Write(doc, elements, {});
    if r.Written? {
      MeaningPreserved(doc, elements, r.stmts, r.written);
      forall x <- r.written ensures Spelled(doc, r.stmts, x) {
        AllSpelled(doc, elements, r.stmts, r.written, x);
      }
    }
  }

  // ---- What the statements determine ----

  ghost predicate NoneMerged(doc: Document, written: set<Id>)
    requires written <= doc.Keys
  {
    forall x <- written, y <- written :: Merged(doc, x, y) ==> x == y
  }

  // Where nothing is merged the statements determine every connector: two documents that agree on the
  // names of their elements, and whose translations build the same, have the same connectors with the
  // same ends.
  lemma StatementsDetermine(
      doc: Document, other: Document, elements: seq<Scg>, others: seq<Scg>, written: set<Id>, stmts: seq<Stmt>,
      theirs: seq<Stmt>, c: Id)
    requires ValidDocument(doc) && ValidDocument(other) && written <= doc.Keys && written <= other.Keys
    requires Tells(doc, elements, written, stmts) && Tells(other, others, written, theirs)
    requires NoneMerged(doc, written) && forall x <- written :: NameOf(doc, x) == NameOf(other, x)
    requires ExecAll(stmts, map[]) == ExecAll(theirs, map[]) && c in written
    ensures IsConnector(doc[c]) <==> IsConnector(other[c])
    ensures IsConnector(doc[c]) ==>
              doc[c].source == other[c].source && doc[c].target == other[c].target && doc[c].scsType == other[c].scsType
  {
    AliasesAreConnectors(doc, c, c);
    AliasesAreConnectors(other, c, c);
    if IsConnector(doc[c]) {
      var env := ExecAll(stmts, map[]).value;
      assert Rebuilt(doc, written, env, c) && Rebuilt(other, written, env, c);
    }
  }

  // A variable node "x" and a variable node "_x" are merged: arcs from one and from the other come
  // out with one and the same source.
  lemma VariablesMerge(x: Info, y: Info, fromX: Info, fromY: Info)
    requires x.tag == y.tag == Node && IsVariable(x.ty) && IsVariable(y.ty) && x.idtf == "x" && y.idtf == "_x"
    requires fromX.tag == fromY.tag == Arc && fromX.source == "a" && fromY.source == "b"
    requires fromX.target == fromY.target == "a"
    ensures
      var doc: Document := map["a" := x, "b" := y, "c" := fromX, "d" := fromY];
      && ValidDocument(doc) && Merged(doc, "a", "b")
      && WireOf(doc, "c").src == WireOf(doc, "d").src == "_x"
  {
    var doc: Document := map["a" := x, "b" := y, "c" := fromX, "d" := fromY];
    assert ReplaceDash("c")[0] == 'c' && ReplaceDash("d")[0] == 'd';
    assert "_" + "x" == "_x";
    assert doc["a"] == x && doc["b"] == y;
  }
}
