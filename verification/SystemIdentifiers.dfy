// System identifiers: sc_helper.c.
module SystemIdentifiers {
  import opened ScTypes
  import opened ScGraph

  datatype Result = Ok | No | InvalidSystemIdentifier | DuplicatedSystemIdentifier | AddrIsNotValid

  // `sc_system_identifier_fiver`; all EMPTY when nothing was found or set.
  datatype Fiver = Fiver(element: Addr, arc: Addr, link: Addr, membership: Addr)
  const NOTHING: Fiver := Fiver(EMPTY, EMPTY, EMPTY, EMPTY)

  // The element, by way of a link, bears the name.
  predicate Bears(g: Graph, nrel: Addr, f: Fiver, name: string) {
    && f.link in g && g[f.link].content == Text(name)
    && f.arc in g && HasSubtype(g[f.arc].ty, CONST_COMMON_ARC)
    && g[f.arc].begin == f.element && g[f.arc].end == f.link && f.element in g
    && f.membership in g && HasSubtype(g[f.membership].ty, CONST_PERM_POS_ARC)
    && g[f.membership].begin == nrel && g[f.membership].end == f.arc
  }

  ghost predicate Named(g: Graph, nrel: Addr, x: Addr, name: string) {
    exists f: Fiver :: f.element == x && Bears(g, nrel, f, name)
  }

  // No name belongs to two elements.
  ghost predicate Unique(g: Graph, nrel: Addr) {
    forall x, y, name :: Named(g, nrel, x, name) && Named(g, nrel, y, name) ==> x == y
  }

  // `sc_helper_check_system_identifier`. The regular expression is not anchored, so one character
  // that it knows is enough, and its quotation marks are taken literally.
  predicate Valid(name: string) {
    || (exists i | 0 <= i < |name| :: IsIdentifierChar(name[i]))
    || exists i | 0 <= i < |name| - 2 :: QuotedAt(name, i)
  }

  predicate IsIdentifierChar(c: char) {
    '0' <= c <= '9' || 'a' <= c <= 'z' || 'A' <= c <= 'Z'
  }

  predicate QuotedAt(name: string, i: int)
    requires 0 <= i < |name| - 2
  {
    name[i] == '\'' && name[i + 2] == '\''
  }

  // One letter or digit anywhere is enough; without one it takes two quotation marks around a character.
  lemma WhatIsValid(name: string)
    ensures Valid(name) <==>
            || (exists c <- name :: 'a' <= c <= 'z' || 'A' <= c <= 'Z' || '0' <= c <= '9')
            || exists before: string, c: char, after: string :: name == before + ['\'', c, '\''] + after
  {
    if c :| c in name && ('a' <= c <= 'z' || 'A' <= c <= 'Z' || '0' <= c <= '9') {
      var i :| 0 <= i < |name| && name[i] == c;
      assert IsIdentifierChar(name[i]);
    }
    if before: string, c: char, after: string :| name == before + ['\'', c, '\''] + after {
      assert name[|before|] == '\'' && name[|before| + 2] == '\'';
      assert QuotedAt(name, |before|);
    }
    if i :| 0 <= i < |name| && IsIdentifierChar(name[i]) {
      assert name[i] in name;
    } else if i :| 0 <= i < |name| - 2 && QuotedAt(name, i) {
      assert name == name[..i] + ['\'', name[i + 1], '\''] + name[i + 3..];
    }
  }

  // What is accepted is accepted with anything before and after it ...
  lemma NotAnchored(before: string, name: string, after: string)
    requires Valid(name)
    ensures Valid(before + name + after)
  {
    var longer, n := before + name + after, |before|;
    if i :| 0 <= i < |name| && IsIdentifierChar(name[i]) {
      assert longer[n + i] == name[i];
    } else {
      var i :| 0 <= i < |name| - 2 && QuotedAt(name, i);
      assert longer[n + i] == name[i] && longer[n + i + 2] == name[i + 2];
      assert QuotedAt(longer, n + i);
    }
  }

  // ... while underscores and dots, which the expression quotes, make no identifier alone.
  lemma UnderscoresAndDotsAreRefused(name: string)
    requires forall c <- name :: c in {'_', '.'}
    ensures !Valid(name)
  {
    forall i | 0 <= i < |name| ensures !IsIdentifierChar(name[i]) && name[i] != '\'' {
      assert name[i] in name;
    }
  }

  function Link(name: string): Element { Element(CONST_NODE_LINK, EMPTY, EMPTY, Text(name)) }

  class SystemIdentifiers {
    const memory: ScMemory
    const nrel: Addr

    constructor (memory: ScMemory, nrel: Addr)
      ensures this.memory == memory && this.nrel == nrel
    {
      this.memory, this.nrel := memory, nrel;
    }

    ghost predicate Invariant()
      reads memory
    {
      Wf(memory.graph) && nrel in memory.graph && Unique(memory.graph, nrel)
    }

    // The links with the content in any order, the first that names something wins.
    method FindElementBySystemIdentifier(data: string) returns (result: Result, fiver: Fiver)
      requires Wf(memory.graph)
      ensures result in {Ok, No, InvalidSystemIdentifier}
      ensures result == InvalidSystemIdentifier <==> !Valid(data)
      ensures result == Ok ==> Bears(memory.graph, nrel, fiver, data)
      ensures result == No ==> forall x :: !Named(memory.graph, nrel, x, data)
      ensures result != Ok ==> fiver == NOTHING
    {
      if !Valid(data) {
        return InvalidSystemIdentifier, NOTHING;
      }
      var g := memory.graph;
      var left := set link <- g | g[link].content == Text(data);
      while left != {}
        invariant left <= set link <- g | g[link].content == Text(data)
        invariant forall f: Fiver :: Bears(g, nrel, f, data) ==> f.link in left
        decreases left
      {
        var link :| link in left;
        left := left - {link};
        if arc, membership :|
          arc in g && membership in g && Bears(g, nrel, Fiver(g[arc].begin, arc, link, membership), data)
        {
          return Ok, Fiver(g[arc].begin, arc, link, membership);
        }
        forall f: Fiver | Bears(g, nrel, f, data) ensures f.link != link {
          assert f == Fiver(g[f.arc].begin, f.arc, f.link, f.membership);
        }
      }
      return No, NOTHING;
    }

    // The link stays behind, without a name relation, when the element does not exist. (The address of
    // an erased element may be handed out again to the link itself.)
    method SetSystemIdentifier(addr: Addr, data: string) returns (result: Result, fiver: Fiver)
      requires Invariant()
      modifies memory
      ensures Invariant()
      ensures result == InvalidSystemIdentifier <==> !Valid(data)
      ensures result == DuplicatedSystemIdentifier <==>
              Valid(data) && exists x :: Named(old(memory.graph), nrel, x, data)
      ensures Valid(data) && addr in old(memory.graph) && (forall x :: !Named(old(memory.graph), nrel, x, data)) ==>
                result == Ok
      ensures result == Ok ==> addr in old(memory.graph) || addr == fiver.link
      ensures result in {InvalidSystemIdentifier, DuplicatedSystemIdentifier} ==> memory.graph == old(memory.graph)
      ensures result == Ok ==> fiver.element == addr && Bears(memory.graph, nrel, fiver, data)
      ensures Preserved(old(memory.graph), memory.graph)
      ensures forall x, name ::
                Named(memory.graph, nrel, x, name) <==>
                Named(old(memory.graph), nrel, x, name) || (result == Ok && x == addr && name == data)
    {
      if !Valid(data) {
        return InvalidSystemIdentifier, NOTHING;
      }
      var found, owner := FindElementBySystemIdentifier(data);
      if found == Ok {
        assert Named(memory.graph, nrel, owner.element, data);
        return DuplicatedSystemIdentifier, NOTHING;
      }
      result, fiver := Attach(addr, data);
    }

    method NewLink(data: string) returns (link: Addr)
      requires Wf(memory.graph)
      modifies memory
      ensures Wf(memory.graph) && link !in old(memory.graph)
      ensures memory.graph == old(memory.graph)[link := Link(data)]
      ensures forall x, name :: Named(memory.graph, nrel, x, name) <==> Named(old(memory.graph), nrel, x, name)
    {
      ghost var g := memory.graph;
      link := memory.GenerateLink();
      memory.SetLinkContent(link, data);
      ArcTypes();
      NamesNothing(g, memory.graph, nrel, link, Link(data));
    }

    method Attach(addr: Addr, data: string) returns (result: Result, fiver: Fiver)
      requires Invariant() && forall x :: !Named(memory.graph, nrel, x, data)
      modifies memory
      ensures Invariant() && result in {Ok, AddrIsNotValid}
      ensures addr in old(memory.graph) ==> result == Ok
      ensures result == Ok ==> addr in old(memory.graph) || addr == fiver.link
      ensures result == Ok ==> fiver.element == addr && Bears(memory.graph, nrel, fiver, data)
      ensures Preserved(old(memory.graph), memory.graph)
      ensures forall x, name ::
                Named(memory.graph, nrel, x, name) <==>
                Named(old(memory.graph), nrel, x, name) || (result == Ok && x == addr && name == data)
    {
      ghost var g := memory.graph;
      var link := NewLink(data);
      var arc := memory.GenerateConnector(CONST_COMMON_ARC, addr, link);
      if arc == EMPTY {
        return AddrIsNotValid, NOTHING;
      }
      var membership := memory.GenerateConnector(CONST_PERM_POS_ARC, nrel, arc);
      fiver := Fiver(addr, arc, link, membership);
      NewName(g, memory.graph, nrel, fiver, data);
      StillUnique(g, memory.graph, nrel, fiver, data);
      return Ok, fiver;
    }

    // None when it fails.
    method ResolveSystemIdentifier(name: string, ty: ScType) returns (ok: bool, addr: Addr, fiver: Fiver)
      requires Invariant() && !IsConnector(ty)
      modifies memory
      ensures Invariant()
      ensures ok <==> Valid(name)
      ensures !ok ==> memory.graph == old(memory.graph) && addr == EMPTY
      ensures ok ==> fiver.element == addr && Bears(memory.graph, nrel, fiver, name)
      ensures (exists x :: Named(old(memory.graph), nrel, x, name)) ==> memory.graph == old(memory.graph)
      ensures ok && !(exists x :: Named(old(memory.graph), nrel, x, name)) ==>
                addr !in old(memory.graph) && memory.graph[addr] == Node(ty | NODE)
      ensures forall x, n ::
                Named(memory.graph, nrel, x, n) <==>
                Named(old(memory.graph), nrel, x, n) || (ok && x == addr && n == name)
    {
      var result;
      result, fiver := FindElementBySystemIdentifier(name);
      if result == Ok {
        assert Named(memory.graph, nrel, fiver.element, name);
        return true, fiver.element, fiver;
      }
      if result != No {
        return false, EMPTY, fiver;
      }
      ghost var g := memory.graph;
      addr := memory.GenerateNode(ty);
      ArcTypes();
      NodeType(ty);
      NamesNothing(g, memory.graph, nrel, addr, Node(ty | NODE));
      result, fiver := SetSystemIdentifier(addr, name);
      ok := true;
    }
  }

  // An element that no connector from the relation points to names nothing.
  lemma NamesNothing(g: Graph, after: Graph, nrel: Addr, a: Addr, element: Element)
    requires Wf(g) && a !in g && after == g[a := element]
    requires !(element.begin == nrel && HasSubtype(element.ty, CONST_PERM_POS_ARC))
    ensures forall x, name :: Named(after, nrel, x, name) <==> Named(g, nrel, x, name)
  {
    forall x, name ensures Named(after, nrel, x, name) <==> Named(g, nrel, x, name) {
      if f: Fiver :| f.element == x && Bears(after, nrel, f, name) {
        OldFiver(g, after, nrel, f, name);
      }
      if f: Fiver :| f.element == x && Bears(g, nrel, f, name) {
        assert Bears(after, nrel, f, name);
      }
    }
  }

  lemma OldFiver(g: Graph, after: Graph, nrel: Addr, f: Fiver, name: string)
    requires Wf(g) && (forall a <- g :: a in after && after[a] == g[a])
    requires Bears(after, nrel, f, name) && f.membership in g
    ensures Bears(g, nrel, f, name)
  {
    ArcTypes();
  }

  // The link, the arc and the membership arc together name the element and nothing else.
  ghost predicate Naming(g: Graph, after: Graph, nrel: Addr, f: Fiver, data: string) {
    var linked := g[f.link := Link(data)];
    var drawn := linked[f.arc := Arc(CONST_COMMON_ARC, f.element, f.link)];
    && f.link !in g && f.element in linked && f.arc !in linked && f.membership !in drawn
    && after == drawn[f.membership := Arc(CONST_PERM_POS_ARC, nrel, f.arc)]
  }

  lemma NewFiver(g: Graph, after: Graph, nrel: Addr, f: Fiver, data: string, d: Fiver, name: string)
    requires Wf(g) && Naming(g, after, nrel, f, data)
    ensures Bears(after, nrel, d, name) <==> Bears(g, nrel, d, name) || (d == f && name == data)
  {
    ArcTypes();
    if Bears(after, nrel, d, name) {
      if d.membership in g {
        OldFiver(g, after, nrel, d, name);
      }
    }
  }

  lemma NewName(g: Graph, after: Graph, nrel: Addr, f: Fiver, data: string)
    requires Wf(g) && Naming(g, after, nrel, f, data)
    ensures Bears(after, nrel, f, data) && Preserved(g, after)
    ensures forall x, name ::
              Named(after, nrel, x, name) <==> Named(g, nrel, x, name) || (x == f.element && name == data)
  {
    NewFiver(g, after, nrel, f, data, f, data);
    forall x, name
      ensures Named(after, nrel, x, name) <==> Named(g, nrel, x, name) || (x == f.element && name == data)
    {
      if d: Fiver :| d.element == x && Bears(after, nrel, d, name) {
        NewFiver(g, after, nrel, f, data, d, name);
      }
      if d: Fiver :| d.element == x && Bears(g, nrel, d, name) {
        NewFiver(g, after, nrel, f, data, d, name);
      }
    }
  }

  lemma StillUnique(g: Graph, after: Graph, nrel: Addr, f: Fiver, data: string)
    requires Wf(g) && Naming(g, after, nrel, f, data)
    requires Unique(g, nrel) && forall x :: !Named(g, nrel, x, data)
    ensures Unique(after, nrel)
  {
    NewName(g, after, nrel, f, data);
  }

  // Erasing only takes names away, and only from where it erases.
  lemma ErasureKeepsUnique(g: Graph, roots: set<Addr>, nrel: Addr)
    requires Wf(g) && Unique(g, nrel)
    ensures Unique(Del(g, roots), nrel)
    ensures forall x, name :: Named(Del(g, roots), nrel, x, name) ==> Named(g, nrel, x, name)
    ensures forall f: Fiver, name ::
              (Bears(g, nrel, f, name) && f.element !in Cascade(g, roots) && f.link !in Cascade(g, roots)
               && f.arc !in Cascade(g, roots) && f.membership !in Cascade(g, roots)) ==>
                Bears(Del(g, roots), nrel, f, name)
  {
    forall x, name | Named(Del(g, roots), nrel, x, name) ensures Named(g, nrel, x, name) {
      var f: Fiver :| f.element == x && Bears(Del(g, roots), nrel, f, name);
      assert Bears(g, nrel, f, name);
    }
  }

  // Resolving a name a second time finds the same element and leaves memory alone.
  method ResolveTwice(identifiers: SystemIdentifiers, name: string, ty: ScType, again: ScType)
    returns (first: Addr, second: Addr)
    requires identifiers.Invariant() && !IsConnector(ty) && !IsConnector(again) && Valid(name)
    modifies identifiers.memory
    ensures identifiers.Invariant() && first == second
    ensures Named(identifiers.memory.graph, identifiers.nrel, first, name)
  {
    var ok, fiver;
    ok, first, fiver := identifiers.ResolveSystemIdentifier(name, ty);
    assert Named(identifiers.memory.graph, identifiers.nrel, first, name);
    label Once:
    ok, second, fiver := identifiers.ResolveSystemIdentifier(name, again);
    assert identifiers.memory.graph == old@Once(identifiers.memory.graph);
    assert Named(identifiers.memory.graph, identifiers.nrel, second, name);
  }
}
