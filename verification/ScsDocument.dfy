// The SCg document that the SCs writer reads, the SCs statements it emits, and what executing
// those statements means. Text layout (tabs, newlines, token spelling) is not represented.
module ScsDocument {
  import opened Wrappers

  type Id = string

  datatype Tag = Node | Bus | Pair | Arc | Contour

  // Content of a link; plain nodes have none. `Unsupported` stands for a content type outside 1..4.
  datatype LinkContent = NoContent | Str(s: string) | Int(s: string) | Flt(s: string) | Unsupported

  // `scsType` is the sc.s spelling of `ty`, empty when the conversion tables know none, and
  // `unsupported` says that sc.s has no connector token for the type.
  datatype Info = Info(
    tag: Tag, idtf: string, ty: string, scsType: string, unsupported: bool, content: LinkContent,
    source: Id, target: Id)

  // All parsed elements by id; the parser has resolved both endpoints of every connector.
  type Document = map<Id, Info>

  // An element to write, with the elements of a contour in the order its map yields them.
  datatype Scg = Scg(id: Id, children: seq<Scg>)

  predicate IsConnector(info: Info) { info.tag == Pair || info.tag == Arc }

  ghost predicate ValidDocument(doc: Document) {
    && (forall c <- doc :: IsConnector(doc[c]) ==> doc[c].source in doc && doc[c].target in doc)
    && forall c <- doc, d <- doc ::
         IsConnector(doc[c]) && IsConnector(doc[d]) && ReplaceDash(c) == ReplaceDash(d) ==> c == d
  }

  // ---- Identifiers ----

  function ReplaceDash(s: string): (r: string)
    ensures |r| == |s|
  {
    seq(|s|, i requires 0 <= i < |s| => if s[i] == '-' then '_' else s[i])
  }

  predicate OccursAt(s: string, part: string, i: int) {
    0 <= i <= |s| - |part| && s[i..i + |part|] == part
  }

  predicate IsVariable(ty: string) {
    exists i | 0 <= i <= |ty| :: OccursAt(ty, "/var/", i)
  }

  predicate IsEnglishIdentifier(s: string) {
    forall c <- s :: '0' <= c <= '9' || 'a' <= c <= 'z' || 'A' <= c <= 'Z' || c == '_'
  }

  function MakeAlias(prefix: string, id: Id): string {
    "@" + prefix + "_" + ReplaceDash(id)
  }

  // Whether sc.s can spell the element's own identifier.
  predicate Usable(info: Info) { info.idtf != "" && IsEnglishIdentifier(info.idtf) }

  // The own identifier, with the mark that the identifier of a variable begins with.
  function Corrected(info: Info): string
    requires Usable(info)
  {
    if IsVariable(info.ty) && info.idtf[0] != '_' then "_" + info.idtf else info.idtf
  }

  // `GenerateSCsIdentifier`: an alias for a connector; otherwise the element's own identifier where
  // sc.s can spell it, and a generated one where it cannot.
  function NameOf(doc: Document, id: Id): string
    requires id in doc
  {
    var info := doc[id];
    if IsConnector(info) then MakeAlias("connector", id)
    else if Usable(info) then Corrected(info)
    else (if IsVariable(info.ty) then ".._el" else "..el") + "_" + ReplaceDash(id)
  }

  predicate IsAlias(name: string) { name != "" && name[0] == '@' }

  // What the name begins with tells how it came about.
  lemma NameBegins(doc: Document, x: Id)
    requires x in doc
    ensures
      var info, name := doc[x], NameOf(doc, x);
      && name != ""
      && (name[0] == '@' <==> IsConnector(info))
      && (name[0] == '.' <==> !IsConnector(info) && !Usable(info))
  {
    var info := doc[x];
    if Usable(info) {
      assert info.idtf[0] in info.idtf;
    }
  }

  lemma SamePrefix(prefix: string, x: Id, y: Id)
    ensures prefix + ReplaceDash(x) == prefix + ReplaceDash(y) <==> ReplaceDash(x) == ReplaceDash(y)
  {
    assert (prefix + ReplaceDash(x))[|prefix|..] == ReplaceDash(x);
    assert (prefix + ReplaceDash(y))[|prefix|..] == ReplaceDash(y);
  }

  // Exactly the connectors are named by aliases, and no two connectors by the same one.
  lemma AliasesAreConnectors(doc: Document, x: Id, y: Id)
    requires ValidDocument(doc) && x in doc && y in doc
    ensures IsAlias(NameOf(doc, x)) <==> IsConnector(doc[x])
    ensures IsConnector(doc[x]) && NameOf(doc, x) == NameOf(doc, y) ==> x == y
  {
    NameBegins(doc, x);
    NameBegins(doc, y);
    SamePrefix("@" + "connector" + "_", x, y);
  }

  // ---- What the names are ----

  // Dashes, and nothing else, are replaced.
  lemma DashesReplaced(s: string, i: nat)
    requires i < |s|
    ensures ReplaceDash(s)[i] == '_' <==> s[i] in {'-', '_'}
    ensures ReplaceDash(s)[i] != '_' ==> ReplaceDash(s)[i] == s[i]
  {
  }

  // A type is variable when it holds "/var/" somewhere.
  lemma VariableTypes(ty: string)
    ensures IsVariable(ty) <==> exists before: string, after: string :: ty == before + "/var/" + after
  {
    if IsVariable(ty) {
      var i :| 0 <= i <= |ty| && OccursAt(ty, "/var/", i);
      assert ty == ty[..i] + "/var/" + ty[i + 5..];
    }
    if before: string, after: string :| ty == before + "/var/" + after {
      assert OccursAt(ty, "/var/", |before|);
    }
  }

  // An identifier that sc.s can spell holds letters, digits and underscores alone.
  lemma SpellingIsSafe(info: Info)
    ensures Usable(info) <==>
            info.idtf != "" && forall i: nat :: i < |info.idtf| ==>
              var c := info.idtf[i];
              'a' <= c <= 'z' || 'A' <= c <= 'Z' || '0' <= c <= '9' || c == '_'
  {
    assert forall i: nat :: i < |info.idtf| ==> info.idtf[i] in info.idtf;
  }

  // The element's own identifier where sc.s can spell it, with '_' in front when it is a variable's
  // that does not begin so; otherwise a name made of the id, which tells variables from constants.
  lemma NameIs(doc: Document, x: Id)
    requires x in doc
    ensures
      var info, name := doc[x], NameOf(doc, x);
      && (info.tag in {Pair, Arc} ==> name == "@connector_" + ReplaceDash(x))
      && (info.tag !in {Pair, Arc} ==>
            && (Usable(info) && !IsVariable(info.ty) ==> name == info.idtf)
            && (Usable(info) && IsVariable(info.ty) && info.idtf[0] == '_' ==> name == info.idtf)
            && (Usable(info) && IsVariable(info.ty) && info.idtf[0] != '_' ==> name == "_" + info.idtf)
            && (!Usable(info) && !IsVariable(info.ty) ==> name == "..el_" + ReplaceDash(x))
            && (!Usable(info) && IsVariable(info.ty) ==> name == ".._el_" + ReplaceDash(x)))
  {
    assert "@" + "connector" + "_" == "@connector_" && "..el" + "_" == "..el_" && ".._el" + "_" == ".._el_";
  }

  // ---- Elements with one name ----

  // The identifiers are equal, or differ by the '_' that a variable gets; an identifier that a variable
  // and a constant share is marked in one of them only, unless it is marked already.
  predicate OneIdentifier(a: Info, b: Info)
    requires a.idtf != "" && b.idtf != ""
  {
    || (a.idtf == b.idtf && (IsVariable(a.ty) == IsVariable(b.ty) || a.idtf[0] == '_'))
    || (IsVariable(a.ty) && a.idtf[0] != '_' && b.idtf == "_" + a.idtf)
    || (IsVariable(b.ty) && b.idtf[0] != '_' && a.idtf == "_" + b.idtf)
  }

  // Two elements that the writer does not tell apart.
  predicate Merged(doc: Document, x: Id, y: Id)
    requires x in doc && y in doc
  {
    && !IsConnector(doc[x]) && !IsConnector(doc[y])
    && if Usable(doc[x]) && Usable(doc[y]) then OneIdentifier(doc[x], doc[y])
       else
         && !Usable(doc[x]) && !Usable(doc[y]) && IsVariable(doc[x].ty) == IsVariable(doc[y].ty)
         && ReplaceDash(x) == ReplaceDash(y)
  }

  lemma MarkedAlike(a: string, b: string)
    ensures "_" + a == "_" + b <==> a == b
  {
    assert ("_" + a)[1..] == a && ("_" + b)[1..] == b;
  }

  lemma CorrectedAlike(a: Info, b: Info)
    requires Usable(a) && Usable(b)
    ensures Corrected(a) == Corrected(b) <==> OneIdentifier(a, b)
  {
    MarkedAlike(a.idtf, b.idtf);
    assert ("_" + a.idtf)[0] == '_' && ("_" + b.idtf)[0] == '_';
  }

  // Two elements have one name exactly when neither is a connector and either their identifiers come
  // out as one or, where both names are generated, the ids are the same up to '-' and '_'.
  lemma OneName(doc: Document, x: Id, y: Id)
    requires ValidDocument(doc) && x in doc && y in doc
    ensures NameOf(doc, x) == NameOf(doc, y) <==> x == y || Merged(doc, x, y)
  {
    NameBegins(doc, x);
    NameBegins(doc, y);
    AliasesAreConnectors(doc, x, y);
    if !IsConnector(doc[x]) && !IsConnector(doc[y]) {
      if Usable(doc[x]) && Usable(doc[y]) {
        CorrectedAlike(doc[x], doc[y]);
      } else if !Usable(doc[x]) && !Usable(doc[y]) {
        GeneratedNames(doc, x, y);
      }
    }
  }

  lemma GeneratedNames(doc: Document, x: Id, y: Id)
    requires x in doc && y in doc && !IsConnector(doc[x]) && !IsConnector(doc[y])
    requires !Usable(doc[x]) && !Usable(doc[y])
    ensures NameOf(doc, x) == NameOf(doc, y) <==>
            IsVariable(doc[x].ty) == IsVariable(doc[y].ty) && ReplaceDash(x) == ReplaceDash(y)
  {
    SamePrefix(".._el" + "_", x, y);
    SamePrefix("..el" + "_", x, y);
    assert (".._el" + "_" + ReplaceDash(x))[2] == (".._el" + "_" + ReplaceDash(y))[2] == '_';
    assert ("..el" + "_" + ReplaceDash(x))[2] == ("..el" + "_" + ReplaceDash(y))[2] == 'e';
  }

  // Where ids stay distinct, only identifiers of the user's own can make names coincide.
  lemma OneNameByIdentifiers(doc: Document, x: Id, y: Id)
    requires ValidDocument(doc) && x in doc && y in doc && x != y && ReplaceDash(x) != ReplaceDash(y)
    ensures NameOf(doc, x) == NameOf(doc, y) <==>
            && !IsConnector(doc[x]) && !IsConnector(doc[y]) && Usable(doc[x]) && Usable(doc[y])
            && OneIdentifier(doc[x], doc[y])
  {
    OneName(doc, x, y);
  }

  // ---- Statements ----

  // `of` is the element a statement was written for; it is not part of the text.
  datatype Stmt =
    | Declare(name: string, ty: string, of: Id)
    | Content(name: string, text: string, of: Id)
    | Edge(alias: string, src: string, token: string, tgt: string, of: Id)
    | Class(ty: string, alias: string)
    | Block(name: string, body: seq<Stmt>, of: Id)

  // A connector as the statements build it, with the class a separate statement may give it.
  datatype Wire = Wire(token: string, src: string, tgt: string, class_: string)

  type Env = map<string, Wire>

  predicate Resolved(env: Env, name: string) {
    IsAlias(name) ==> name in env
  }

  // Fails on the use of an unbound alias and on binding an alias twice.
  function Exec(stmt: Stmt, env: Env): Option<Env>
    decreases stmt
  {
    match stmt
    case Declare(_, _, _) => Some(env)
    case Content(_, _, _) => Some(env)
    case Edge(alias, src, token, tgt, _) =>
      if alias !in env && Resolved(env, src) && Resolved(env, tgt)
      then Some(env[alias := Wire(token, src, tgt, "")]) else None
    case Class(ty, alias) =>
      if alias in env && env[alias].class_ == "" then Some(env[alias := env[alias].(class_ := ty)]) else None
    case Block(_, body, _) => ExecAll(body, env)
  }

  function ExecAll(stmts: seq<Stmt>, env: Env): Option<Env>
    decreases stmts
  {
    if stmts == [] then Some(env)
    else
      var before := ExecAll(stmts[..|stmts| - 1], env);
      if before.None? then None else Exec(stmts[|stmts| - 1], before.value)
  }

  // The elements that have been written, as often as they have been.
  function EmittedBy(stmt: Stmt): multiset<Id>
    decreases stmt
  {
    match stmt
    case Declare(_, _, of) => multiset{of}
    case Content(_, _, of) => multiset{of}
    case Edge(_, _, _, _, of) => multiset{of}
    case Class(_, _) => multiset{}
    case Block(_, body, of) => Emitted(body) + multiset{of}
  }

  function Emitted(stmts: seq<Stmt>): multiset<Id>
    decreases stmts
  {
    if stmts == [] then multiset{}
    else Emitted(stmts[..|stmts| - 1]) + EmittedBy(stmts[|stmts| - 1])
  }

  lemma ExecSnoc(a: seq<Stmt>, last: Stmt, env: Env)
    ensures ExecAll(a + [last], env) == if ExecAll(a, env).None? then None else Exec(last, ExecAll(a, env).value)
  {
    assert (a + [last])[..|a|] == a;
  }

  lemma Regrouped<T>(a: seq<T>, b: seq<T>, c: seq<T>)
    ensures a + (b + c) == (a + b) + c
  {
  }

  lemma FrontAndLast<T>(s: seq<T>)
    requires s != []
    ensures s == s[..|s| - 1] + [s[|s| - 1]]
  {
  }

  lemma {:induction false} ExecConcat(a: seq<Stmt>, b: seq<Stmt>, env: Env)
    ensures ExecAll(a + b, env) == if ExecAll(a, env).None? then None else ExecAll(b, ExecAll(a, env).value)
  {
    if b == [] {
      assert a + b == a;
    } else {
      var front, last := b[..|b| - 1], [b[|b| - 1]];
      ExecConcat(a, front, env);
      ExecSnoc(a + front, last[0], env);
      Regrouped(a, front, last);
      FrontAndLast(b);
    }
  }

  lemma EmittedSnoc(a: seq<Stmt>, last: Stmt)
    ensures Emitted(a + [last]) == Emitted(a) + EmittedBy(last)
  {
    assert (a + [last])[..|a|] == a;
  }

  lemma SumsRegrouped(a: multiset<Id>, b: multiset<Id>, c: multiset<Id>)
    ensures (a + b) + c == a + (b + c)
  {
  }

  lemma EmittedStep(a: seq<Stmt>, front: seq<Stmt>, last: Stmt)
    requires Emitted(a + front) == Emitted(a) + Emitted(front)
    ensures Emitted(a + (front + [last])) == Emitted(a) + Emitted(front + [last])
  {
    Regrouped(a, front, [last]);
    EmittedSnoc(a + front, last);
    EmittedSnoc(front, last);
    SumsRegrouped(Emitted(a), Emitted(front), EmittedBy(last));
  }

  lemma {:induction false} EmittedConcat(a: seq<Stmt>, b: seq<Stmt>)
    ensures Emitted(a + b) == Emitted(a) + Emitted(b)
  {
    if b == [] {
      assert a + b == a;
    } else {
      EmittedConcat(a, b[..|b| - 1]);
      EmittedStep(a, b[..|b| - 1], b[|b| - 1]);
      FrontAndLast(b);
    }
  }

  // ---- The meaning of a document ----

  function WireOf(doc: Document, c: Id): Wire
    requires ValidDocument(doc) && c in doc && IsConnector(doc[c])
  {
    var info := doc[c];
    var src, tgt := NameOf(doc, info.source), NameOf(doc, info.target);
    if info.unsupported then Wire("=>", src, tgt, info.scsType) else Wire(info.scsType, src, tgt, "")
  }

  ghost function NamesOf(doc: Document, ids: set<Id>): set<string>
    requires ids <= doc.Keys
  {
    set c <- ids | IsConnector(doc[c]) :: NameOf(doc, c)
  }

  // The connector that has the alias.
  ghost function Owner(doc: Document, alias: string): (c: Id)
    requires alias in NamesOf(doc, doc.Keys)
    ensures c in doc && IsConnector(doc[c]) && NameOf(doc, c) == alias
  {
    var c :| c in doc && IsConnector(doc[c]) && NameOf(doc, c) == alias;
    c
  }

  // The connectors among `written`, each under its alias with its own endpoints.
  ghost function EnvOf(doc: Document, written: set<Id>): Env
    requires ValidDocument(doc) && written <= doc.Keys
  {
    map alias <- NamesOf(doc, written) :: WireOf(doc, Owner(doc, alias))
  }

  lemma OwnerOfName(doc: Document, c: Id)
    requires ValidDocument(doc) && c in doc && IsConnector(doc[c])
    ensures NameOf(doc, c) in NamesOf(doc, doc.Keys) && Owner(doc, NameOf(doc, c)) == c
  {
    var alias := NameOf(doc, c);
    assert alias in NamesOf(doc, doc.Keys);
    AliasesAreConnectors(doc, c, Owner(doc, alias));
  }

  // An endpoint can be referred to exactly when it is no connector or its alias is bound.
  lemma ResolvedInEnv(doc: Document, written: set<Id>, x: Id)
    requires ValidDocument(doc) && written <= doc.Keys && x in doc
    ensures Resolved(EnvOf(doc, written), NameOf(doc, x)) <==> !IsConnector(doc[x]) || x in written
  {
    AliasesAreConnectors(doc, x, x);
    if IsConnector(doc[x]) {
      OwnerOfName(doc, x);
      forall c <- written | IsConnector(doc[c]) && NameOf(doc, c) == NameOf(doc, x) ensures c == x {
        AliasesAreConnectors(doc, c, x);
      }
    }
  }

  lemma NamesGrow(doc: Document, written: set<Id>, x: Id)
    requires written <= doc.Keys && x in doc
    ensures NamesOf(doc, written + {x}) == NamesOf(doc, written) + if IsConnector(doc[x]) then {NameOf(doc, x)} else {}
  {
  }

  lemma NameIsFree(doc: Document, written: set<Id>, x: Id)
    requires ValidDocument(doc) && written <= doc.Keys && x in doc && x !in written && IsConnector(doc[x])
    ensures NameOf(doc, x) !in NamesOf(doc, written)
  {
    forall c <- written | IsConnector(doc[c]) ensures NameOf(doc, c) != NameOf(doc, x) {
      AliasesAreConnectors(doc, c, x);
    }
  }

  lemma EnvGainsConnector(doc: Document, written: set<Id>, x: Id)
    requires ValidDocument(doc) && written <= doc.Keys && x in doc && x !in written && IsConnector(doc[x])
    ensures EnvOf(doc, written + {x}) == EnvOf(doc, written)[NameOf(doc, x) := WireOf(doc, x)]
  {
    NamesGrow(doc, written, x);
    OwnerOfName(doc, x);
    NameIsFree(doc, written, x);
  }

  lemma EnvGrows(doc: Document, written: set<Id>, x: Id)
    requires ValidDocument(doc) && written <= doc.Keys && x in doc && x !in written
    ensures EnvOf(doc, written + {x}) ==
            if IsConnector(doc[x]) then EnvOf(doc, written)[NameOf(doc, x) := WireOf(doc, x)] else EnvOf(doc, written)
    ensures IsConnector(doc[x]) ==> NameOf(doc, x) !in EnvOf(doc, written)
  {
    if IsConnector(doc[x]) {
      EnvGainsConnector(doc, written, x);
      NameIsFree(doc, written, x);
    } else {
      NamesGrow(doc, written, x);
      assert NamesOf(doc, written + {x}) == NamesOf(doc, written);
    }
  }

  // In the environment of a whole document every connector is found by its alias.
  lemma EnvHasEveryConnector(doc: Document, written: set<Id>, c: Id)
    requires ValidDocument(doc) && written <= doc.Keys && c in written && IsConnector(doc[c])
    ensures NameOf(doc, c) in EnvOf(doc, written) && EnvOf(doc, written)[NameOf(doc, c)] == WireOf(doc, c)
  {
    OwnerOfName(doc, c);
  }
}
