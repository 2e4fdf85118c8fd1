// SCsWriter::Write of sc_scs_writer.cpp, with the contours of sc_scs_element.cpp inside it.
module ScsWriter {
  import opened Wrappers
  import opened ScsDocument

  // ---- The least fixpoint of "both endpoints written" ----

  predicate Ready(doc: Document, c: Id, written: set<Id>)
    requires c in doc
  {
    doc[c].source in written && doc[c].target in written
  }

  ghost function Grow(doc: Document, connectors: set<Id>, written: set<Id>): set<Id>
    requires connectors <= doc.Keys
    decreases connectors - written
  {
    var ready := set c <- connectors | c !in written && Ready(doc, c, written);
    if ready == {} then written else Grow(doc, connectors, written + ready)
  }

  ghost predicate Saturated(doc: Document, connectors: set<Id>, written: set<Id>)
    requires connectors <= doc.Keys
  {
    forall c <- connectors :: Ready(doc, c, written) ==> c in written
  }

  lemma {:induction false} GrowSaturated(doc: Document, connectors: set<Id>, written: set<Id>)
    requires connectors <= doc.Keys
    ensures written <= Grow(doc, connectors, written) <= written + connectors
    ensures Saturated(doc, connectors, Grow(doc, connectors, written))
    decreases connectors - written
  {
    var ready := set c <- connectors | c !in written && Ready(doc, c, written);
    if ready == {} {
      assert forall c <- connectors :: c in written || !Ready(doc, c, written) || c in ready;
    } else {
      GrowSaturated(doc, connectors, written + ready);
    }
  }

  lemma {:induction false} GrowLeast(doc: Document, connectors: set<Id>, written: set<Id>, bound: set<Id>)
    requires connectors <= doc.Keys && written <= bound && Saturated(doc, connectors, bound)
    ensures Grow(doc, connectors, written) <= bound
    decreases connectors - written
  {
    var ready := set c <- connectors | c !in written && Ready(doc, c, written);
    if ready != {} {
      assert ready <= bound by {
        forall c <- ready ensures c in bound { assert Ready(doc, c, bound); }
      }
      GrowLeast(doc, connectors, written + ready, bound);
    }
  }

  // ---- The trees that are written ----

  predicate Convertible(info: Info) {
    match info.tag
    case Node => if info.content.NoContent? then info.scsType != "" else !info.content.Unsupported?
    case Contour => true
    case Pair => info.scsType != ""
    case Arc => info.scsType != ""
    case Bus => true
  }

  // All elements are in the document, and only contours have elements of their own.
  ghost predicate ValidTree(doc: Document, elements: seq<Scg>)
    decreases elements
  {
    forall e <- elements ::
      e.id in doc && (e.children != [] ==> doc[e.id].tag == Contour) && ValidTree(doc, e.children)
  }

  // Everything that should get written, buses excepted, as often as it occurs.
  ghost function WritableIn(doc: Document, e: Scg): multiset<Id>
    decreases e
  {
    (if e.id in doc && doc[e.id].tag == Bus then multiset{} else multiset{e.id}) + Writable(doc, e.children)
  }

  ghost function Writable(doc: Document, elements: seq<Scg>): multiset<Id>
    decreases elements
  {
    if elements == [] then multiset{}
    else Writable(doc, elements[..|elements| - 1]) + WritableIn(doc, elements[|elements| - 1])
  }

  ghost function SetOf(m: multiset<Id>): set<Id> { set x <- m }

  // ---- What a call writes ----

  ghost function ConnectorsOf(doc: Document, elements: seq<Scg>): set<Id> {
    set e <- elements | e.id in doc && IsConnector(doc[e.id]) :: e.id
  }

  // One step of the first loop: None when it throws.
  ghost function Visit(doc: Document, e: Scg, written: set<Id>): Option<set<Id>>
    requires ValidTree(doc, [e])
    decreases e, 0
  {
    assert e in [e];
    var info := doc[e.id];
    if info.tag == Bus || (IsConnector(info) && !Ready(doc, e.id, written)) then Some(written)
    else if !Convertible(info) then None
    else if info.tag == Contour then
      var inner := WriteSpec(doc, e.children, written);
      if inner.None? then None else Some(inner.value + {e.id})
    else Some(written + {e.id})
  }

  ghost function FirstPhase(doc: Document, elements: seq<Scg>, written: set<Id>): Option<set<Id>>
    requires ValidTree(doc, elements)
    decreases elements, 0
  {
    if elements == [] then Some(written)
    else
      var before := FirstPhase(doc, elements[..|elements| - 1], written);
      if before.None? then None else Visit(doc, elements[|elements| - 1], before.value)
  }

  ghost function WriteSpec(doc: Document, elements: seq<Scg>, written: set<Id>): Option<set<Id>>
    requires ValidTree(doc, elements)
    decreases elements, 1
  {
    var first := FirstPhase(doc, elements, written);
    if first.None? then None
    else
      var deferred := ConnectorsOf(doc, elements) - first.value;
      var all := Grow(doc, deferred, first.value);
      if deferred <= all && forall c <- deferred :: Convertible(doc[c]) then Some(all) else None
  }

  lemma ValidPart(doc: Document, elements: seq<Scg>, i: nat)
    requires ValidTree(doc, elements) && i <= |elements|
    ensures ValidTree(doc, elements[..i])
    ensures i < |elements| ==> ValidTree(doc, [elements[i]]) && ValidTree(doc, elements[i].children)
    ensures i < |elements| ==> elements[i].id in doc
    ensures ConnectorsOf(doc, elements) <= doc.Keys
  {
    if i < |elements| {
      var e := elements[i];
      assert e in elements;
      assert forall x <- [e] :: x == e;
    }
  }

  lemma Unfold(doc: Document, elements: seq<Scg>, i: nat)
    requires i < |elements|
    ensures elements[..i + 1] == elements[..i] + [elements[i]]
    ensures elements[..i + 1][..i] == elements[..i] && elements[..i + 1][i] == elements[i]
    ensures Writable(doc, elements[..i + 1]) == Writable(doc, elements[..i]) + WritableIn(doc, elements[i])
    ensures ConnectorsOf(doc, elements[..i + 1]) == ConnectorsOf(doc, elements[..i]) + ConnectorsOf(doc, [elements[i]])
  {
    assert elements[..i + 1][..i] == elements[..i];
    assert forall e :: e in elements[..i + 1] <==> e in elements[..i] || e in [elements[i]];
  }

  // When the first loop does not throw, what it leaves out is connectors.
  lemma {:induction false} FirstPhaseCovers(doc: Document, elements: seq<Scg>, written: set<Id>)
    requires ValidTree(doc, elements) && FirstPhase(doc, elements, written).Some?
    ensures
      var first := FirstPhase(doc, elements, written).value;
      && written <= first
      && first + ConnectorsOf(doc, elements) == written + SetOf(Writable(doc, elements))
    decreases elements, 0
  {
    if elements != [] {
      var n := |elements| - 1;
      assert elements[..n + 1] == elements;
      ValidPart(doc, elements, n);
      Unfold(doc, elements, n);
      FirstPhaseCovers(doc, elements[..n], written);
      VisitCovers(doc, elements[n], FirstPhase(doc, elements[..n], written).value);
      SetOfSum(Writable(doc, elements[..n]), WritableIn(doc, elements[n]));
      JoinCovers(
        written, FirstPhase(doc, elements[..n], written).value, FirstPhase(doc, elements, written).value,
        ConnectorsOf(doc, elements[..n]), ConnectorsOf(doc, [elements[n]]),
        SetOf(Writable(doc, elements[..n])), SetOf(WritableIn(doc, elements[n])));
    }
  }

  lemma SetOfSum(a: multiset<Id>, b: multiset<Id>)
    ensures SetOf(a + b) == SetOf(a) + SetOf(b)
  {
  }

  lemma JoinCovers(w: set<Id>, x: set<Id>, y: set<Id>, c: set<Id>, d: set<Id>, m: set<Id>, n: set<Id>)
    requires x + c == w + m && y + d == x + n && x <= y
    ensures y + (c + d) == w + (m + n)
  {
    assert y + (c + d) == (y + d) + (x + c);
  }

  lemma OneConnector(doc: Document, e: Scg)
    requires e.id in doc
    ensures ConnectorsOf(doc, [e]) == if IsConnector(doc[e.id]) then {e.id} else {}
  {
    assert e in [e];
  }

  lemma WritableLeaf(doc: Document, e: Scg)
    requires e.id in doc && e.children == []
    ensures SetOf(WritableIn(doc, e)) == if doc[e.id].tag == Bus then {} else {e.id}
  {
    assert Writable(doc, []) == multiset{};
  }

  lemma WritableContour(doc: Document, e: Scg)
    requires e.id in doc && doc[e.id].tag == Contour
    ensures SetOf(WritableIn(doc, e)) == SetOf(Writable(doc, e.children)) + {e.id}
  {
  }

  lemma LeafCovers(doc: Document, e: Scg, written: set<Id>)
    requires ValidTree(doc, [e]) && e.id in doc && doc[e.id].tag != Contour && Visit(doc, e, written).Some?
    ensures written <= Visit(doc, e, written).value
    ensures Visit(doc, e, written).value + ConnectorsOf(doc, [e]) == written + SetOf(WritableIn(doc, e))
  {
    assert e in [e];
    WritableLeaf(doc, e);
    OneConnector(doc, e);
  }

  lemma {:induction false} VisitCovers(doc: Document, e: Scg, written: set<Id>)
    requires ValidTree(doc, [e]) && Visit(doc, e, written).Some?
    ensures written <= Visit(doc, e, written).value
    ensures Visit(doc, e, written).value + ConnectorsOf(doc, [e]) == written + SetOf(WritableIn(doc, e))
    decreases e, 0
  {
    assert e in [e];
    if doc[e.id].tag == Contour {
      WriteCovers(doc, e.children, written);
      WritableContour(doc, e);
      OneConnector(doc, e);
    } else {
      LeafCovers(doc, e, written);
    }
  }

  // A call that succeeds has written everything.
  lemma {:induction false} WriteCovers(doc: Document, elements: seq<Scg>, written: set<Id>)
    requires ValidTree(doc, elements) && WriteSpec(doc, elements, written).Some?
    ensures WriteSpec(doc, elements, written).value == written + SetOf(Writable(doc, elements))
    decreases elements, 1
  {
    FirstPhaseCovers(doc, elements, written);
    var first := FirstPhase(doc, elements, written).value;
    ValidPart(doc, elements, 0);
    GrowSaturated(doc, ConnectorsOf(doc, elements) - first, first);
  }

  lemma {:induction false} ThrownEarly(doc: Document, elements: seq<Scg>, i: nat, written: set<Id>)
    requires ValidTree(doc, elements) && i <= |elements| && ValidTree(doc, elements[..i])
    requires FirstPhase(doc, elements[..i], written).None?
    ensures FirstPhase(doc, elements, written).None?
    decreases |elements| - i
  {
    if i == |elements| {
      assert elements[..i] == elements;
    } else {
      ValidPart(doc, elements, i + 1);
      Unfold(doc, elements, i);
      ThrownEarly(doc, elements, i + 1, written);
    }
  }

  // ---- Each element once ----

  // No element occurs twice in the trees, and none of them has been written yet.
  ghost predicate Once(doc: Document, elements: seq<Scg>, written: set<Id>) {
    forall x :: Writable(doc, elements)[x] <= if x in written then 0 else 1
  }

  lemma {:induction false} WritablePrefix(doc: Document, elements: seq<Scg>, i: nat)
    requires i <= |elements|
    ensures Writable(doc, elements[..i]) <= Writable(doc, elements)
    decreases |elements| - i
  {
    if i == |elements| {
      assert elements[..i] == elements;
    } else {
      Unfold(doc, elements, i);
      WritablePrefix(doc, elements, i + 1);
    }
  }

  lemma OnceBelow(doc: Document, elements: seq<Scg>, i: nat, before: set<Id>, written: set<Id>)
    requires ValidTree(doc, elements) && i < |elements| && Once(doc, elements, before)
    requires written <= before + SetOf(Writable(doc, elements[..i]))
    ensures forall x :: WritableIn(doc, elements[i])[x] <= if x in written then 0 else 1
    ensures Once(doc, elements[i].children, written)
  {
    Unfold(doc, elements, i);
    WritablePrefix(doc, elements, i + 1);
    var e := elements[i];
    forall x ensures WritableIn(doc, e)[x] <= if x in written then 0 else 1 {
      assert Writable(doc, elements[..i + 1])[x] <= Writable(doc, elements)[x];
      assert x in written ==> x in before || Writable(doc, elements[..i])[x] > 0;
    }
    assert forall x :: Writable(doc, e.children)[x] <= WritableIn(doc, e)[x];
  }

  // ---- Writing ----

  datatype Outcome = Written(stmts: seq<Stmt>, written: set<Id>) | Thrown

  // The content of a link in sc.s; the brackets of a variable link are marked.
  function TextOf(info: Info): string {
    var content := match info.content
                   case Str(s) => s
                   case Int(s) => "\"int64:" + s + "\""
                   case Flt(s) => "\"float:" + s + "\""
                   case _ => "";
    (if IsVariable(info.ty) then "_" else "") + "[" + content + "]"
  }

  // The statement says of its element what the document says.
  ghost predicate Says(doc: Document, stmt: Stmt)
    decreases stmt
  {
    match stmt
    case Declare(name, ty, of) =>
      of in doc && doc[of].tag == Node && name == NameOf(doc, of) && ty == doc[of].scsType && doc[of].content.NoContent?
    case Content(name, text, of) =>
      of in doc && doc[of].tag == Node && name == NameOf(doc, of) && text == TextOf(doc[of])
      && !doc[of].content.NoContent?
    case Block(name, body, of) =>
      of in doc && doc[of].tag == Contour && name == NameOf(doc, of) && forall part <- body :: Says(doc, part)
    case Edge(alias, src, token, tgt, of) =>
      of in doc && IsConnector(doc[of]) && doc[of].source in doc && doc[of].target in doc
      && alias == NameOf(doc, of) && src == NameOf(doc, doc[of].source) && tgt == NameOf(doc, doc[of].target)
      && token == if doc[of].unsupported then "=>" else doc[of].scsType
    case Class(_, _) => true
  }

  // The statements take the environment of `before` to that of `after`, write each new element exactly
  // once, and say of it what the document says.
  ghost predicate Progress(doc: Document, before: set<Id>, stmts: seq<Stmt>, after: set<Id>)
    requires ValidDocument(doc)
  {
    && before <= after <= doc.Keys
    && ExecAll(stmts, EnvOf(doc, before)) == Some(EnvOf(doc, after))
    && Emitted(stmts) == multiset(after - before)
    && forall stmt <- stmts :: Says(doc, stmt)
  }

  lemma ProgressJoin(doc: Document, w: set<Id>, a: seq<Stmt>, x: set<Id>, b: seq<Stmt>, y: set<Id>)
    requires ValidDocument(doc) && Progress(doc, w, a, x) && Progress(doc, x, b, y)
    ensures Progress(doc, w, a + b, y)
  {
    ExecConcat(a, b, EnvOf(doc, w));
    EmittedConcat(a, b);
    assert y - w == (x - w) + (y - x);
  }

  lemma ProgressOne(doc: Document, written: set<Id>, stmt: Stmt, x: Id)
    requires ValidDocument(doc) && written <= doc.Keys && x in doc && x !in written
    requires Exec(stmt, EnvOf(doc, written)) == Some(EnvOf(doc, written + {x})) && EmittedBy(stmt) == multiset{x}
    requires Says(doc, stmt)
    ensures Progress(doc, written, [stmt], written + {x})
  {
    assert [stmt][..0] == [];
    assert (written + {x}) - written == {x};
  }

  // A block that holds exactly what is inside the contour, and the contours in it as blocks again.
  ghost predicate IsBlockOf(doc: Document, stmt: Stmt, e: Scg)
    decreases e
  {
    && stmt.Block? && stmt.of == e.id && Emitted(stmt.body) == Writable(doc, e.children)
    && Nests(doc, e.children, stmt.body)
  }

  // Every contour among the elements has its block among the statements.
  ghost predicate Nests(doc: Document, elements: seq<Scg>, stmts: seq<Stmt>)
    decreases elements
  {
    forall e <- elements :: e.id in doc && doc[e.id].tag == Contour ==> exists stmt <- stmts :: IsBlockOf(doc, stmt, e)
  }

  lemma NestsMore(doc: Document, a: seq<Scg>, s: seq<Stmt>, e: Scg, u: seq<Stmt>)
    requires Nests(doc, a, s) && Nests(doc, [e], u)
    ensures Nests(doc, a + [e], s + u)
  {
    forall d <- a + [e] | d.id in doc && doc[d.id].tag == Contour
      ensures exists stmt <- s + u :: IsBlockOf(doc, stmt, d)
    {
      if d in a {
        var stmt :| stmt in s && IsBlockOf(doc, stmt, d);
        assert stmt in s + u;
      } else {
        assert d in [e];
        var stmt :| stmt in u && IsBlockOf(doc, stmt, d);
        assert stmt in s + u;
      }
    }
  }

  lemma NestsOne(doc: Document, e: Scg, stmts: seq<Stmt>)
    requires e.id in doc && (doc[e.id].tag == Contour ==> |stmts| == 1 && IsBlockOf(doc, stmts[0], e))
    ensures Nests(doc, [e], stmts)
  {
    assert forall d <- [e] :: d == e;
    assert doc[e.id].tag == Contour ==> stmts[0] in stmts;
  }

  lemma StillNests(doc: Document, elements: seq<Scg>, s: seq<Stmt>, u: seq<Stmt>)
    requires Nests(doc, elements, s)
    ensures Nests(doc, elements, s + u)
  {
    forall d <- elements | d.id in doc && doc[d.id].tag == Contour
      ensures exists stmt <- s + u :: IsBlockOf(doc, stmt, d)
    {
      var stmt :| stmt in s && IsBlockOf(doc, stmt, d);
      assert stmt in s + u;
    }
  }

  // `SCsConnector::ConvertFromSCgElement` and `Dump`
  method WriteConnector(doc: Document, c: Id, written: set<Id>) returns (r: Outcome)
    requires ValidDocument(doc) && written <= doc.Keys && c in doc && IsConnector(doc[c])
    requires c !in written && Ready(doc, c, written)
    ensures r.Written? <==> Convertible(doc[c])
    ensures r.Written? ==> r.written == written + {c} && Progress(doc, written, r.stmts, r.written)
  {
    var info := doc[c];
    if info.scsType == "" {
      return Thrown;
    }
    var alias, src, tgt := NameOf(doc, c), NameOf(doc, info.source), NameOf(doc, info.target);
    ResolvedInEnv(doc, written, info.source);
    ResolvedInEnv(doc, written, info.target);
    EnvGrows(doc, written, c);
    if info.unsupported {
      ClassedProgress(doc, written, c);
      return Written([Edge(alias, src, "=>", tgt, c), Class(info.scsType, alias)], written + {c});
    }
    ProgressOne(doc, written, Edge(alias, src, info.scsType, tgt, c), c);
    return Written([Edge(alias, src, info.scsType, tgt, c)], written + {c});
  }

  // A type without a connector token takes two statements.
  lemma ClassedProgress(doc: Document, written: set<Id>, c: Id)
    requires ValidDocument(doc) && written <= doc.Keys && c in doc && IsConnector(doc[c])
    requires c !in written && Ready(doc, c, written) && doc[c].unsupported
    ensures
      var alias, src, tgt := NameOf(doc, c), NameOf(doc, doc[c].source), NameOf(doc, doc[c].target);
      Progress(doc, written, [Edge(alias, src, "=>", tgt, c), Class(doc[c].scsType, alias)], written + {c})
  {
    var alias, src, tgt := NameOf(doc, c), NameOf(doc, doc[c].source), NameOf(doc, doc[c].target);
    ResolvedInEnv(doc, written, doc[c].source);
    ResolvedInEnv(doc, written, doc[c].target);
    EnvGrows(doc, written, c);
    EdgeThenClass(EnvOf(doc, written), alias, src, tgt, doc[c].scsType, c);
    assert (written + {c}) - written == {c};
  }

  lemma EdgeThenClass(env: Env, alias: string, src: string, tgt: string, ty: string, c: Id)
    requires alias !in env && Resolved(env, src) && Resolved(env, tgt)
    ensures ExecAll([Edge(alias, src, "=>", tgt, c), Class(ty, alias)], env)
            == Some(env[alias := Wire("=>", src, tgt, ty)])
    ensures Emitted([Edge(alias, src, "=>", tgt, c), Class(ty, alias)]) == multiset{c}
  {
    var edge, class_ := Edge(alias, src, "=>", tgt, c), Class(ty, alias);
    var between := env[alias := Wire("=>", src, tgt, "")];
    OneStmt(edge, env);
    OneStmt(class_, between);
    ExecConcat([edge], [class_], env);
    EmittedConcat([edge], [class_]);
    assert [edge] + [class_] == [edge, class_];
    assert between[alias := Wire("=>", src, tgt, ty)] == env[alias := Wire("=>", src, tgt, ty)];
  }

  lemma OneStmt(stmt: Stmt, env: Env)
    ensures ExecAll([stmt], env) == Exec(stmt, env) && Emitted([stmt]) == EmittedBy(stmt)
  {
    assert [stmt][..0] == [];
  }

  // The conversion and `Dump` of an element that is no connector.
  method WriteElement(doc: Document, e: Scg, written: set<Id>) returns (r: Outcome)
    requires ValidDocument(doc) && ValidTree(doc, [e]) && written <= doc.Keys
    requires !IsConnector(doc[e.id]) && doc[e.id].tag != Bus
    requires forall x :: WritableIn(doc, e)[x] <= if x in written then 0 else 1
    requires ValidTree(doc, e.children) && Once(doc, e.children, written)
    ensures r.Written? <==> Visit(doc, e, written).Some?
    ensures r.Written? ==> Visit(doc, e, written) == Some(r.written) && Progress(doc, written, r.stmts, r.written)
    ensures r.Written? && doc[e.id].tag == Contour ==> |r.stmts| == 1 && IsBlockOf(doc, r.stmts[0], e)
    decreases e, 0
  {
    var info, name := doc[e.id], NameOf(doc, e.id);
    assert WritableIn(doc, e)[e.id] >= 1;
    EnvGrows(doc, written, e.id);
    if info.tag == Contour {
      var inner := Write(doc, e.children, written);
      if inner.Thrown? {
        return Thrown;
      }
      WriteCovers(doc, e.children, written);
      assert e.id !in inner.written by {
        assert WritableIn(doc, e)[e.id] == Writable(doc, e.children)[e.id] + 1;
      }
      EnvGrows(doc, inner.written, e.id);
      var block := Block(name, inner.stmts, e.id);
      ContourProgress(doc, written, inner.stmts, inner.written, name, e.id);
      InsideOnce(doc, e.children, written, inner.stmts, inner.written);
      return Written([block], inner.written + {e.id});
    }
    if info.content.NoContent? {
      if info.scsType == "" {
        return Thrown;
      }
      ProgressOne(doc, written, Declare(name, info.scsType, e.id), e.id);
      return Written([Declare(name, info.scsType, e.id)], written + {e.id});
    }
    if info.content.Unsupported? {
      return Thrown;
    }
    var text := TextOf(info);
    ProgressOne(doc, written, Content(name, text, e.id), e.id);
    return Written([Content(name, text, e.id)], written + {e.id});
  }

  lemma ContourProgress(doc: Document, written: set<Id>, body: seq<Stmt>, inner: set<Id>, name: string, x: Id)
    requires ValidDocument(doc) && Progress(doc, written, body, inner) && x in doc && x !in inner
    requires doc[x].tag == Contour && name == NameOf(doc, x)
    ensures Progress(doc, written, [Block(name, body, x)], inner + {x})
  {
    EnvGrows(doc, inner, x);
    OneBlock(name, body, x, EnvOf(doc, written));
    OneMore(inner, written, x);
    BlockSays(doc, name, body, x);
  }

  lemma BlockSays(doc: Document, name: string, body: seq<Stmt>, x: Id)
    requires x in doc && doc[x].tag == Contour && name == NameOf(doc, x) && forall part <- body :: Says(doc, part)
    ensures forall stmt <- [Block(name, body, x)] :: Says(doc, stmt)
  {
  }

  lemma OneMore(all: set<Id>, before: set<Id>, x: Id)
    requires x !in all && before <= all
    ensures multiset((all + {x}) - before) == multiset(all - before) + multiset{x}
  {
    assert (all + {x}) - before == (all - before) + {x};
  }

  lemma OneBlock(name: string, body: seq<Stmt>, x: Id, env: Env)
    ensures ExecAll([Block(name, body, x)], env) == ExecAll(body, env)
    ensures Emitted([Block(name, body, x)]) == Emitted(body) + multiset{x}
  {
    OneStmt(Block(name, body, x), env);
  }

  lemma InsideOnce(doc: Document, elements: seq<Scg>, before: set<Id>, stmts: seq<Stmt>, after: set<Id>)
    requires ValidDocument(doc) && Once(doc, elements, before) && Progress(doc, before, stmts, after)
    requires after == before + SetOf(Writable(doc, elements))
    ensures Emitted(stmts) == Writable(doc, elements)
  {
    var all := Writable(doc, elements);
    forall x ensures Emitted(stmts)[x] == all[x] {
      assert all[x] <= if x in before then 0 else 1;
      assert x in SetOf(all) <==> all[x] > 0;
    }
  }

  ghost function IdsOf(ids: seq<Id>): set<Id> { set c <- ids }

  ghost predicate NoDuplicates(ids: seq<Id>) {
    forall a, b :: 0 <= a < b < |ids| ==> ids[a] != ids[b]
  }

  // The state of the first loop after the elements `seen`.
  ghost predicate Visited(
      doc: Document, seen: seq<Scg>, before: set<Id>, written: set<Id>, deferred: seq<Id>)
  {
    && ValidTree(doc, seen) && FirstPhase(doc, seen, before) == Some(written)
    && IdsOf(deferred) == ConnectorsOf(doc, seen) - written && NoDuplicates(deferred)
    && written + IdsOf(deferred) <= before + SetOf(Writable(doc, seen))
  }

  // One step of the first loop; `deferred` grows when the element has to wait.
  method VisitElement(
      doc: Document, elements: seq<Scg>, i: nat, ghost before: set<Id>, written: set<Id>, deferred: seq<Id>)
    returns (r: Outcome, waiting: seq<Id>)
    requires ValidDocument(doc) && written <= doc.Keys && Visiting(doc, elements, i, before, written, deferred)
    ensures r.Thrown? ==> WriteSpec(doc, elements, before).None?
    ensures r.Written? ==> Progress(doc, written, r.stmts, r.written) && Nests(doc, [elements[i]], r.stmts)
    ensures r.Written? ==> Visited(doc, elements[..i + 1], before, r.written, waiting)
    decreases elements[i], 2
  {
    var e := elements[i];
    ValidPart(doc, elements, i);
    OnceBelow(doc, elements, i, before, written + IdsOf(deferred));
    assert WritableIn(doc, e)[e.id] >= 1 || doc[e.id].tag == Bus;
    waiting := deferred;
    var info := doc[e.id];
    if info.tag == Bus {
      VisitedSkip(doc, elements, i, before, written, deferred);
      NothingSaid(doc, e, written);
      return Written([], written), deferred;
    }
    if IsConnector(info) && !Ready(doc, e.id, written) {
      VisitedDefer(doc, elements, i, before, written, deferred);
      NothingSaid(doc, e, written);
      return Written([], written), deferred + [e.id];
    }
    r := WriteNow(doc, e, written);
    if r.Thrown? {
      VisitThrown(doc, elements, i, before, written);
    } else {
      VisitedWrite(doc, elements, i, before, written, deferred, r.written);
    }
  }

  // An element that does not have to wait.
  method WriteNow(doc: Document, e: Scg, written: set<Id>) returns (r: Outcome)
    requires ValidDocument(doc) && ValidTree(doc, [e]) && written <= doc.Keys
    requires doc[e.id].tag != Bus && (IsConnector(doc[e.id]) ==> e.id !in written && Ready(doc, e.id, written))
    requires forall x :: WritableIn(doc, e)[x] <= if x in written then 0 else 1
    requires ValidTree(doc, e.children) && Once(doc, e.children, written)
    ensures r.Written? <==> Visit(doc, e, written).Some?
    ensures r.Written? ==> Visit(doc, e, written) == Some(r.written) && Progress(doc, written, r.stmts, r.written)
    ensures r.Written? ==> Nests(doc, [e], r.stmts) && (IsConnector(doc[e.id]) ==> e.id in r.written)
    decreases e, 1
  {
    if IsConnector(doc[e.id]) {
      r := WriteConnector(doc, e.id, written);
    } else {
      r := WriteElement(doc, e, written);
    }
    if r.Written? {
      NestsOne(doc, e, r.stmts);
    }
  }

  lemma NothingSaid(doc: Document, e: Scg, written: set<Id>)
    requires ValidDocument(doc) && written <= doc.Keys && e.id in doc && doc[e.id].tag != Contour
    ensures Progress(doc, written, [], written) && Nests(doc, [e], [])
  {
    NothingYet(doc, written);
    NestsOne(doc, e, []);
  }

  lemma OneVisited(
      doc: Document, elements: seq<Scg>, i: nat, before: set<Id>, stmts: seq<Stmt>, written: set<Id>,
      step: seq<Stmt>, after: set<Id>)
    requires ValidDocument(doc) && i < |elements|
    requires Progress(doc, before, stmts, written) && Nests(doc, elements[..i], stmts)
    requires Progress(doc, written, step, after) && Nests(doc, [elements[i]], step)
    ensures Progress(doc, before, stmts + step, after) && Nests(doc, elements[..i + 1], stmts + step)
  {
    ProgressJoin(doc, before, stmts, written, step, after);
    NestsMore(doc, elements[..i], stmts, elements[i], step);
    assert elements[..i + 1] == elements[..i] + [elements[i]];
  }

  // What the first loop keeps.
  ghost predicate Passed(
      doc: Document, elements: seq<Scg>, i: nat, before: set<Id>, stmts: seq<Stmt>, written: set<Id>, deferred: seq<Id>)
    requires ValidDocument(doc)
  {
    && ValidTree(doc, elements) && Once(doc, elements, before) && i <= |elements|
    && Visited(doc, elements[..i], before, written, deferred)
    && Progress(doc, before, stmts, written) && Nests(doc, elements[..i], stmts)
  }

  lemma NonePassed(doc: Document, elements: seq<Scg>, before: set<Id>)
    requires ValidDocument(doc) && ValidTree(doc, elements) && before <= doc.Keys && Once(doc, elements, before)
    ensures Passed(doc, elements, 0, before, [], before, [])
  {
    NothingYet(doc, before);
  }

  lemma AllPassed(
      doc: Document, elements: seq<Scg>, before: set<Id>, stmts: seq<Stmt>, written: set<Id>, deferred: seq<Id>)
    requires ValidDocument(doc) && Passed(doc, elements, |elements|, before, stmts, written, deferred)
    ensures Progress(doc, before, stmts, written) && Nests(doc, elements, stmts)
    ensures Visited(doc, elements, before, written, deferred)
  {
    assert elements[..|elements|] == elements;
  }

  // The body of the first loop.
  method VisitNext(
      doc: Document, elements: seq<Scg>, i: nat, ghost before: set<Id>, stmts: seq<Stmt>, written: set<Id>,
      deferred: seq<Id>)
    returns (r: Outcome, waiting: seq<Id>)
    requires ValidDocument(doc) && i < |elements| && Passed(doc, elements, i, before, stmts, written, deferred)
    ensures r.Thrown? ==> WriteSpec(doc, elements, before).None?
    ensures r.Written? ==> Passed(doc, elements, i + 1, before, r.stmts, r.written, waiting)
    decreases elements, 3
  {
    assert elements[i] in elements;
    r, waiting := VisitElement(doc, elements, i, before, written, deferred);
    if r.Written? {
      OneVisited(doc, elements, i, before, stmts, written, r.stmts, r.written);
      r := Written(stmts + r.stmts, r.written);
    }
  }

  // The first loop.
  method VisitEach(doc: Document, elements: seq<Scg>, before: set<Id>) returns (r: Outcome, deferred: seq<Id>)
    requires ValidDocument(doc) && Passed(doc, elements, 0, before, [], before, [])
    ensures r.Thrown? ==> WriteSpec(doc, elements, before).None?
    ensures r.Written? ==> Passed(doc, elements, |elements|, before, r.stmts, r.written, deferred)
    decreases elements, 4
  {
    r, deferred := Written([], before), [];
    var i := 0;
    while i < |elements|
      invariant 0 <= i <= |elements|
      invariant r.Written? && Passed(doc, elements, i, before, r.stmts, r.written, deferred)
    {
      r, deferred := VisitNext(doc, elements, i, before, r.stmts, r.written, deferred);
      if r.Thrown? {
        return;
      }
      i := i + 1;
    }
  }

  method VisitAll(doc: Document, elements: seq<Scg>, before: set<Id>) returns (r: Outcome, deferred: seq<Id>)
    requires ValidDocument(doc) && ValidTree(doc, elements) && before <= doc.Keys && Once(doc, elements, before)
    ensures r.Thrown? ==> WriteSpec(doc, elements, before).None?
    ensures r.Written? ==> Progress(doc, before, r.stmts, r.written) && Nests(doc, elements, r.stmts)
    ensures r.Written? ==> Visited(doc, elements, before, r.written, deferred)
    decreases elements, 5
  {
    NonePassed(doc, elements, before);
    r, deferred := VisitEach(doc, elements, before);
    if r.Written? {
      AllPassed(doc, elements, before, r.stmts, r.written, deferred);
    }
  }

  method Write(doc: Document, elements: seq<Scg>, before: set<Id>) returns (r: Outcome)
    requires ValidDocument(doc) && ValidTree(doc, elements) && before <= doc.Keys && Once(doc, elements, before)
    ensures r.Written? <==> WriteSpec(doc, elements, before).Some?
    ensures r.Written? ==> WriteSpec(doc, elements, before) == Some(r.written)
    ensures r.Written? ==> Progress(doc, before, r.stmts, r.written) && Nests(doc, elements, r.stmts)
    decreases elements, 6
  {
    var first, deferred := VisitAll(doc, elements, before);
    if first.Thrown? {
      return Thrown;
    }
    SecondPhase(doc, elements, before, first.written, deferred);
    var second := WriteDeferred(doc, deferred, first.written);
    if second.Thrown? {
      return Thrown;
    }
    ProgressJoin(doc, before, first.stmts, first.written, second.stmts, second.written);
    StillNests(doc, elements, first.stmts, second.stmts);
    return Written(first.stmts + second.stmts, second.written);
  }

  lemma SecondPhase(doc: Document, elements: seq<Scg>, before: set<Id>, first: set<Id>, deferred: seq<Id>)
    requires ValidTree(doc, elements) && Visited(doc, elements, before, first, deferred)
    ensures forall c <- deferred :: c in doc && IsConnector(doc[c]) && c !in first
    ensures WriteSpec(doc, elements, before) ==
            if IdsOf(deferred) <= Grow(doc, IdsOf(deferred), first) && forall c <- deferred :: Convertible(doc[c])
            then Some(Grow(doc, IdsOf(deferred), first)) else None
  {
    assert forall c <- deferred :: c in IdsOf(deferred);
    assert forall c <- IdsOf(deferred) :: c in deferred;
  }

  // The second loop: pass after pass over the deferred connectors, until a pass writes none.
  method WriteDeferred(doc: Document, deferred: seq<Id>, before: set<Id>) returns (r: Outcome)
    requires ValidDocument(doc) && before <= doc.Keys && NoDuplicates(deferred)
    requires forall c <- deferred :: c in doc && IsConnector(doc[c]) && c !in before
    ensures r.Written? <==>
            IdsOf(deferred) <= Grow(doc, IdsOf(deferred), before) && forall c <- deferred :: Convertible(doc[c])
    ensures r.Written? ==> r.written == Grow(doc, IdsOf(deferred), before)
    ensures r.Written? ==> Progress(doc, before, r.stmts, r.written)
  {
    GrowSaturated(doc, IdsOf(deferred), before);
    var stmts, written, waiting := [], before, deferred;
    NothingYet(doc, before);
    var writtenOnPreviousIteration := |waiting|;
    while writtenOnPreviousIteration != 0
      invariant writtenOnPreviousIteration >= 0
      invariant Waiting(doc, deferred, before, written, waiting)
      invariant Progress(doc, before, stmts, written)
      invariant writtenOnPreviousIteration == 0 ==> forall c <- waiting :: c in doc && !Ready(doc, c, written)
      decreases |waiting|, writtenOnPreviousIteration
    {
      var step, left := WritePass(doc, deferred, before, written, waiting);
      if step.Thrown? {
        return Thrown;
      }
      ProgressJoin(doc, before, stmts, written, step.stmts, step.written);
      writtenOnPreviousIteration := |waiting| - |left|;
      stmts, written, waiting := stmts + step.stmts, step.written, left;
    }
    r := Written(stmts, written);
    NothingReady(doc, deferred, before, written, waiting);
    if waiting != [] {
      return Thrown;
    }
  }

  // When no waiting connector is ready the fixpoint is reached; it misses exactly those waiting.
  lemma NothingReady(doc: Document, deferred: seq<Id>, before: set<Id>, written: set<Id>, waiting: seq<Id>)
    requires IdsOf(deferred) <= doc.Keys && Waiting(doc, deferred, before, written, waiting)
    requires forall c <- waiting :: c in doc && !Ready(doc, c, written)
    requires forall c <- deferred :: c !in before
    ensures written == Grow(doc, IdsOf(deferred), before)
    ensures waiting == [] <==> IdsOf(deferred) <= written
    ensures waiting == [] ==> forall c <- deferred :: Convertible(doc[c])
  {
    assert forall c <- IdsOf(deferred) :: c in written || c in IdsOf(waiting);
    GrowLeast(doc, IdsOf(deferred), before, written);
    if waiting != [] {
      assert waiting[0] in IdsOf(waiting);
    } else {
      assert forall c <- deferred :: c in IdsOf(deferred);
    }
  }

  // One pass of the inner loop; what it writes leaves the list at once.
  method WritePass(doc: Document, ghost deferred: seq<Id>, ghost before: set<Id>, start: set<Id>, list: seq<Id>)
    returns (r: Outcome, waiting: seq<Id>)
    requires ValidDocument(doc) && IdsOf(deferred) <= doc.Keys && start <= doc.Keys
    requires forall c <- deferred :: IsConnector(doc[c]) && c !in before
    requires Waiting(doc, deferred, before, start, list)
    ensures r.Thrown? ==> exists c <- deferred :: !Convertible(doc[c])
    ensures r.Written? ==> Progress(doc, start, r.stmts, r.written)
    ensures r.Written? ==> r.written <= doc.Keys && Waiting(doc, deferred, before, r.written, waiting)
    ensures r.Written? ==> |waiting| <= |list|
    ensures r.Written? && |waiting| == |list| ==> forall c <- waiting :: c in doc && !Ready(doc, c, r.written)
  {
    var stmts, written := [], start;
    waiting := list;
    NothingYet(doc, start);
    var j := 0;
    while j < |waiting|
      invariant 0 <= j <= |waiting| <= |list|
      invariant Waiting(doc, deferred, before, written, waiting)
      invariant Progress(doc, start, stmts, written)
      invariant |waiting| == |list| ==> forall t :: 0 <= t < j ==> waiting[t] in doc && !Ready(doc, waiting[t], written)
      decreases |waiting| - j
    {
      var c := waiting[j];
      assert c in IdsOf(waiting);
      if Ready(doc, c, written) {
        var step := WriteConnector(doc, c, written);
        if step.Thrown? {
          return Thrown, waiting;
        }
        ProgressJoin(doc, start, stmts, written, step.stmts, step.written);
        WaitingLess(doc, deferred, before, written, waiting, j);
        stmts, written := stmts + step.stmts, step.written;
        waiting := waiting[..j] + waiting[j + 1..];
      } else {
        j := j + 1;
      }
    }
    r := Written(stmts, written);
  }

  // Every deferred connector is either waiting or written, and only connectors of the fixpoint are.
  ghost predicate Waiting(doc: Document, deferred: seq<Id>, before: set<Id>, written: set<Id>, waiting: seq<Id>)
    requires IdsOf(deferred) <= doc.Keys
  {
    && before <= written <= Grow(doc, IdsOf(deferred), before) <= doc.Keys
    && NoDuplicates(waiting) && IdsOf(waiting) == IdsOf(deferred) - written
    && forall c <- written - before :: Convertible(doc[c])
  }

  lemma WaitingLess(
      doc: Document, deferred: seq<Id>, before: set<Id>, written: set<Id>, waiting: seq<Id>, j: nat)
    requires IdsOf(deferred) <= doc.Keys && Waiting(doc, deferred, before, written, waiting)
    requires j < |waiting| && waiting[j] in doc && Ready(doc, waiting[j], written) && Convertible(doc[waiting[j]])
    ensures Waiting(doc, deferred, before, written + {waiting[j]}, waiting[..j] + waiting[j + 1..])
  {
    var c, rest := waiting[j], waiting[..j] + waiting[j + 1..];
    GrowSaturated(doc, IdsOf(deferred), before);
    assert c in IdsOf(waiting);
    forall x ensures x in rest <==> x in IdsOf(waiting) && x != c {
      if x in IdsOf(waiting) && x != c {
        var t :| 0 <= t < |waiting| && waiting[t] == x;
        assert rest[if t < j then t else t - 1] == x;
      }
      if x in rest {
        var t :| 0 <= t < |rest| && rest[t] == x;
        assert waiting[if t < j then t else t + 1] == x;
      }
    }
  }

  ghost predicate Visiting(
      doc: Document, elements: seq<Scg>, i: nat, before: set<Id>, written: set<Id>, deferred: seq<Id>)
  {
    && ValidTree(doc, elements) && Once(doc, elements, before) && i < |elements|
    && Visited(doc, elements[..i], before, written, deferred)
  }

  lemma NextWritable(doc: Document, elements: seq<Scg>, i: nat)
    requires i < |elements| && elements[i].id in doc
    ensures SetOf(Writable(doc, elements[..i + 1])) ==
            SetOf(Writable(doc, elements[..i])) + SetOf(WritableIn(doc, elements[i]))
    ensures ConnectorsOf(doc, elements[..i + 1]) == ConnectorsOf(doc, elements[..i]) + ConnectorsOf(doc, [elements[i]])
    ensures ConnectorsOf(doc, [elements[i]]) == if IsConnector(doc[elements[i].id]) then {elements[i].id} else {}
  {
    Unfold(doc, elements, i);
    SetOfSum(Writable(doc, elements[..i]), WritableIn(doc, elements[i]));
    OneConnector(doc, elements[i]);
  }

  lemma NextPhase(doc: Document, elements: seq<Scg>, i: nat, before: set<Id>, written: set<Id>)
    requires ValidTree(doc, elements) && i < |elements| && ValidTree(doc, elements[..i])
    requires FirstPhase(doc, elements[..i], before) == Some(written)
    ensures ValidTree(doc, elements[..i + 1]) && ValidTree(doc, [elements[i]])
    ensures FirstPhase(doc, elements[..i + 1], before) == Visit(doc, elements[i], written)
    ensures SetOf(Writable(doc, elements[..i + 1])) ==
            SetOf(Writable(doc, elements[..i])) + SetOf(WritableIn(doc, elements[i]))
    ensures ConnectorsOf(doc, elements[..i + 1]) == ConnectorsOf(doc, elements[..i]) + ConnectorsOf(doc, [elements[i]])
    ensures elements[i].id in doc && ConnectorsOf(doc, [elements[i]]) ==
            if IsConnector(doc[elements[i].id]) then {elements[i].id} else {}
  {
    ValidPart(doc, elements, i);
    ValidPart(doc, elements, i + 1);
    Unfold(doc, elements, i);
    NextWritable(doc, elements, i);
  }

  lemma VisitedSkip(
      doc: Document, elements: seq<Scg>, i: nat, before: set<Id>, written: set<Id>, deferred: seq<Id>)
    requires Visiting(doc, elements, i, before, written, deferred)
    requires elements[i].id in doc && doc[elements[i].id].tag == Bus
    ensures Visited(doc, elements[..i + 1], before, written, deferred)
  {
    NextPhase(doc, elements, i, before, written);
  }

  lemma VisitedDefer(
      doc: Document, elements: seq<Scg>, i: nat, before: set<Id>, written: set<Id>, deferred: seq<Id>)
    requires Visiting(doc, elements, i, before, written, deferred)
    requires elements[i].id in doc && IsConnector(doc[elements[i].id]) && !Ready(doc, elements[i].id, written)
    ensures Visited(doc, elements[..i + 1], before, written, deferred + [elements[i].id])
  {
    var e := elements[i];
    NextPhase(doc, elements, i, before, written);
    OnceBelow(doc, elements, i, before, written + IdsOf(deferred));
    assert WritableIn(doc, e)[e.id] >= 1;
    assert IdsOf(deferred + [e.id]) == IdsOf(deferred) + {e.id};
    assert forall a :: 0 <= a < |deferred| ==> deferred[a] in IdsOf(deferred);
  }

  lemma VisitedWrite(
      doc: Document, elements: seq<Scg>, i: nat, before: set<Id>, written: set<Id>, deferred: seq<Id>,
      after: set<Id>)
    requires Visiting(doc, elements, i, before, written, deferred)
    requires ValidTree(doc, [elements[i]]) && Visit(doc, elements[i], written) == Some(after)
    requires elements[i].id in doc && (IsConnector(doc[elements[i].id]) ==> elements[i].id in after)
    ensures Visited(doc, elements[..i + 1], before, after, deferred)
  {
    NextPhase(doc, elements, i, before, written);
    VisitCovers(doc, elements[i], written);
    OnceBelow(doc, elements, i, before, written + IdsOf(deferred));
    assert after <= written + SetOf(WritableIn(doc, elements[i]));
    assert SetOf(WritableIn(doc, elements[i])) !! IdsOf(deferred);
  }

  lemma VisitThrown(doc: Document, elements: seq<Scg>, i: nat, before: set<Id>, written: set<Id>)
    requires ValidTree(doc, elements) && i < |elements| && ValidTree(doc, elements[..i])
    requires FirstPhase(doc, elements[..i], before) == Some(written)
    requires ValidTree(doc, [elements[i]]) && Visit(doc, elements[i], written).None?
    ensures WriteSpec(doc, elements, before).None?
  {
    NextPhase(doc, elements, i, before, written);
    ThrownEarly(doc, elements, i + 1, before);
  }

  lemma NothingYet(doc: Document, before: set<Id>)
    requires ValidDocument(doc) && before <= doc.Keys
    ensures Progress(doc, before, [], before)
  {
    assert before - before == {};
  }
}
