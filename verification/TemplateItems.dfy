// ScTemplate of sc_template.cpp: the items of its triples and the maps that index them by name.
module TemplateItems {
  import opened ScTypes
  import opened ScGraph
  import opened ScText

  datatype Kind = TypeItem | AddrItem | ReplaceItem

  // ScTemplateItem; a replacement carries no type.
  datatype Item = Item(kind: Kind, addr: Addr, ty: ScType, name: string)

  function Replace(name: string): Item { Item(ReplaceItem, EMPTY, UNKNOWN, name) }

  predicate HasConstancyFlag(ty: ScType) { ty & (CONST | VAR) != 0 }

  // An item as the constructors of ScTemplateItem leave it.
  predicate WellFormed(item: Item) {
    && (item.kind == ReplaceItem ==> item.ty == UNKNOWN && item.name != "")
    && (IsConnector(item.ty) ==> ConnectorType(item.ty))
  }

  // What `Triple` refuses: constant types and invalid addresses.
  predicate Refused(item: Item) {
    || (item.kind == TypeItem && HasConstancyFlag(item.ty) && !HasSubtype(item.ty, VAR))
    || (item.kind == AddrItem && item.addr == EMPTY)
  }

  // The address last given for the name, EMPTY when there is none.
  function LastAddr(items: seq<Item>, name: string): Addr {
    if items == [] then EMPTY
    else
      var last := items[|items| - 1];
      if last.kind == AddrItem && last.name == name then last.addr else LastAddr(items[..|items| - 1], name)
  }

  // A later item under the name of an address becomes that address.
  function Resolve(items: seq<Item>, item: Item): Item {
    if item.name != "" && item.kind != AddrItem && LastAddr(items, item.name) != EMPTY
    then item.(kind := AddrItem, addr := LastAddr(items, item.name))
    else item
  }

  function Added(items: seq<Item>, item: Item): seq<Item> { items + [Resolve(items, item)] }

  function AddedTriple(items: seq<Item>, a: Item, b: Item, c: Item): seq<Item> {
    Added(Added(Added(items, a), b), c)
  }

  // The connector of a quintuple under a name.
  function Named(item: Item, position: nat): (named: Item)
    ensures named.name != ""
  {
    if item.name == "" then item.(name := "_repl_" + Decimal(position)) else item
  }

  // A generated name spells the position, so no two connectors get the same one.
  lemma GeneratedName(item: Item, position: nat)
    requires item.name == ""
    ensures
      var name := Named(item, position).name;
      name[..6] == "_repl_" && AllDigits(name[6..]) && ValueOf(name[6..]) == position
  {
    DecimalRoundTrip(position);
    assert ("_repl_" + Decimal(position))[6..] == Decimal(position);
  }

  lemma GeneratedNamesDiffer(a: Item, p: nat, b: Item, q: nat)
    requires a.name == b.name == "" && p != q
    ensures Named(a, p).name != Named(b, q).name
  {
    GeneratedName(a, p);
    GeneratedName(b, q);
  }

  // The types that stand for a variable, or leave it open, are taken; so are existing addresses.
  predicate MayStand(item: Item) {
    && (item.kind == TypeItem ==> item.ty & CONST == 0 || item.ty & VAR != 0)
    && (item.kind == AddrItem ==> item.addr != EMPTY)
  }

  lemma ConstancyBits(ty: ScType)
    ensures HasConstancyFlag(ty) && !HasSubtype(ty, VAR) <==> ty & CONST != 0 && ty & VAR == 0
  {
  }

  lemma RefusedIs(item: Item)
    ensures Refused(item) <==> !MayStand(item)
  {
    ConstancyBits(item.ty);
  }

  predicate IsAddressOf(item: Item, name: string) { item.kind == AddrItem && item.name == name }

  // The address is the one given last under the name.
  ghost predicate LastGiven(items: seq<Item>, name: string, a: Addr) {
    exists q: nat ::
      && q < |items| && IsAddressOf(items[q], name) && items[q].addr == a
      && forall r: nat :: q < r < |items| ==> !IsAddressOf(items[r], name)
  }

  ghost predicate NeverGiven(items: seq<Item>, name: string) {
    forall q: nat :: q < |items| ==> !IsAddressOf(items[q], name)
  }

  // How an item is entered behind the others: under the name of an address it becomes that address,
  // and otherwise it stays as it is.
  ghost predicate Becomes(items: seq<Item>, item: Item, entered: Item) {
    if item.kind == AddrItem || item.name == "" || NeverGiven(items, item.name) then entered == item
    else entered == item.(kind := AddrItem, addr := entered.addr) && LastGiven(items, item.name, entered.addr)
  }

  // The three items of a triple are entered in order, and nothing else changes.
  ghost predicate TripleEntered(before: seq<Item>, after: seq<Item>, a: Item, b: Item, c: Item) {
    var n := |before|;
    && |after| == n + 3 && after[..n] == before
    && Becomes(after[..n], a, after[n]) && Becomes(after[..n + 1], b, after[n + 1])
    && Becomes(after[..n + 2], c, after[n + 2])
  }

  lemma {:induction false} LastAddrIs(items: seq<Item>, name: string)
    requires forall item <- items :: item.kind == AddrItem ==> item.addr != EMPTY
    ensures LastAddr(items, name) == EMPTY <==> NeverGiven(items, name)
    ensures LastAddr(items, name) != EMPTY ==> LastGiven(items, name, LastAddr(items, name))
  {
    if items != [] {
      var front, last := items[..|items| - 1], items[|items| - 1];
      LastAddrIs(front, name);
      assert last in items;
      if IsAddressOf(last, name) {
        assert LastGiven(items, name, last.addr);
      } else if LastAddr(front, name) != EMPTY {
        var q: nat :|
          && q < |front| && IsAddressOf(front[q], name) && front[q].addr == LastAddr(front, name)
          && forall r: nat :: q < r < |front| ==> !IsAddressOf(front[r], name);
        assert items[q] == front[q];
      }
    }
  }

  lemma ResolveBecomes(items: seq<Item>, item: Item)
    requires forall x <- items :: x.kind == AddrItem ==> x.addr != EMPTY
    ensures Becomes(items, item, Resolve(items, item))
  {
    LastAddrIs(items, item.name);
  }

  lemma AddedIs(items: seq<Item>, item: Item)
    ensures |Added(items, item)| == |items| + 1 && Added(items, item)[..|items|] == items
    ensures Added(items, item)[|items|] == Resolve(items, item)
  {
  }

  lemma Prefixes(items: seq<Item>, one: seq<Item>, two: seq<Item>, all: seq<Item>)
    requires |one| == |items| + 1 && |two| == |items| + 2 && |all| == |items| + 3
    requires one[..|items|] == items && two[..|one|] == one && all[..|two|] == two
    ensures all[..|items|] == items && all[..|items| + 1] == one && all[..|items| + 2] == two
    ensures all[|items|] == one[|items|] && all[|items| + 1] == two[|items| + 1]
  {
    assert all[..|items|] == all[..|two|][..|one|][..|items|];
    assert all[..|items| + 1] == all[..|two|][..|one|];
  }

  lemma TripleIsEntered(items: seq<Item>, a: Item, b: Item, c: Item)
    requires (forall x <- items :: Accepted(x)) && Accepted(a) && Accepted(b) && Accepted(c)
    ensures TripleEntered(items, AddedTriple(items, a, b, c), a, b, c)
  {
    var one := Added(items, a);
    var two := Added(one, b);
    var all := Added(two, c);
    AddedIs(items, a);
    AddedIs(one, b);
    AddedIs(two, c);
    AddedIsAccepted(items, a);
    AddedIsAccepted(one, b);
    ResolveBecomes(items, a);
    ResolveBecomes(one, b);
    ResolveBecomes(two, c);
    Prefixes(items, one, two, all);
  }

  lemma AddedIsAccepted(items: seq<Item>, item: Item)
    requires (forall x <- items :: Accepted(x)) && Accepted(item)
    ensures forall x <- Added(items, item) :: Accepted(x)
  {
  }

  predicate Accepted(item: Item) { WellFormed(item) && !Refused(item) }

  // The position of the first item that defines a name ...
  ghost predicate PositionsIndexed(items: seq<Item>, positions: map<string, nat>) {
    && (forall n <- positions ::
          n != "" && positions[n] < |items| && items[positions[n]].name == n && items[positions[n]].kind != ReplaceItem)
    && forall p: nat :: p < |items| && items[p].name != "" && items[p].kind != ReplaceItem ==>
         items[p].name in positions && positions[items[p].name] <= p
  }

  // ... and the address last given under it.
  ghost predicate AddrsIndexed(items: seq<Item>, addrs: map<string, Addr>) {
    && (forall n <- addrs :: addrs[n] != EMPTY && n != "")
    && forall n: string :: n != "" ==> LastAddr(items, n) == if n in addrs then addrs[n] else EMPTY
  }

  // The maps of the template say what its items say.
  ghost predicate Indexed(items: seq<Item>, positions: map<string, nat>, addrs: map<string, Addr>) {
    PositionsIndexed(items, positions) && AddrsIndexed(items, addrs) && forall item <- items :: Accepted(item)
  }

  function NextPositions(items: seq<Item>, positions: map<string, nat>, resolved: Item): map<string, nat> {
    if resolved.name != "" && resolved.kind != ReplaceItem && resolved.name !in positions
    then positions[resolved.name := |items|] else positions
  }

  function NextAddrs(addrs: map<string, Addr>, item: Item): map<string, Addr> {
    if item.name != "" && item.kind == AddrItem then addrs[item.name := item.addr] else addrs
  }

  lemma PositionsStep(items: seq<Item>, positions: map<string, nat>, item: Item)
    requires PositionsIndexed(items, positions)
    ensures PositionsIndexed(items + [item], NextPositions(items, positions, item))
  {
  }

  lemma AddrsStep(items: seq<Item>, addrs: map<string, Addr>, item: Item)
    requires AddrsIndexed(items, addrs) && (item.kind == AddrItem ==> item.addr != EMPTY)
    ensures AddrsIndexed(Added(items, item), NextAddrs(addrs, item))
  {
    var all, resolved := Added(items, item), Resolve(items, item);
    assert all[..|all| - 1] == items;
    forall n: string | n != ""
      ensures LastAddr(all, n) ==
              if resolved.kind == AddrItem && resolved.name == n then resolved.addr else LastAddr(items, n)
    {
    }
  }

  lemma ResolvedIsAccepted(items: seq<Item>, item: Item)
    requires Accepted(item)
    ensures Accepted(Resolve(items, item))
  {
  }

  lemma ResolveByMap(items: seq<Item>, addrs: map<string, Addr>, item: Item)
    requires AddrsIndexed(items, addrs)
    ensures Resolve(items, item) == if item.name != "" && item.kind != AddrItem && item.name in addrs
                                    then item.(kind := AddrItem, addr := addrs[item.name]) else item
  {
  }

  lemma IndexedStep(items: seq<Item>, positions: map<string, nat>, addrs: map<string, Addr>, item: Item)
    requires Indexed(items, positions, addrs) && Accepted(item)
    ensures Indexed(
              Added(items, item), NextPositions(items, positions, Resolve(items, item)), NextAddrs(addrs, item))
  {
    var resolved := Resolve(items, item);
    ResolvedIsAccepted(items, item);
    assert PositionsIndexed(items + [resolved], NextPositions(items, positions, resolved)) by {
      PositionsStep(items, positions, resolved);
    }
    assert AddrsIndexed(items + [resolved], NextAddrs(addrs, item)) by {
      AddrsStep(items, addrs, item);
    }
    assert forall x <- items + [resolved] :: x in items || x == resolved;
  }

  class ScTemplate {
    // The values of the triples laid end to end: the triple `i` is items[3 * i..3 * i + 3]. The
    // positions are indexes into this sequence.
    var items: seq<Item>
    var positions: map<string, nat>
    var addrs: map<string, Addr>

    ghost predicate Valid()
      reads this
    {
      |items| % 3 == 0 && Indexed(items, positions, addrs)
    }

    constructor ()
      ensures Valid() && items == []
    {
      items, positions, addrs := [], map[], map[];
    }

    // False when it throws; the template is then not to be used any more.
    method Triple(param1: Item, param2: Item, param3: Item) returns (ok: bool)
      requires Valid() && WellFormed(param1) && WellFormed(param2) && WellFormed(param3)
      modifies this
      ensures ok <==>
              !(param2.name != "" && param2.name in [param1.name, param3.name])
              && MayStand(param1) && MayStand(param2) && MayStand(param3)
      ensures ok ==> Valid() && items == AddedTriple(old(items), param1, param2, param3)
      ensures ok ==> TripleEntered(old(items), items, param1, param2, param3)
    {
      RefusedIs(param1);
      RefusedIs(param2);
      RefusedIs(param3);
      if param2.name != "" && param2.name == param1.name {
        return false;
      }
      if param2.name != "" && param2.name == param3.name {
        return false;
      }
      ghost var before := items;
      ok := RegisterAll(param1, param2, param3);
      if ok {
        TripleIsEntered(before, param1, param2, param3);
      }
    }

    // The loop over the three items.
    method RegisterAll(param1: Item, param2: Item, param3: Item) returns (ok: bool)
      requires Valid() && WellFormed(param1) && WellFormed(param2) && WellFormed(param3)
      modifies this
      ensures ok <==> !Refused(param1) && !Refused(param2) && !Refused(param3)
      ensures ok ==> Valid() && items == AddedTriple(old(items), param1, param2, param3)
    {
      ok := Register(param1);
      if ok {
        ok := Register(param2);
      }
      if ok {
        ok := Register(param3);
      }
    }

    // The body of the loop over the three items.
    method Register(param: Item) returns (ok: bool)
      requires Indexed(items, positions, addrs) && WellFormed(param)
      modifies this
      ensures ok <==> !Refused(param)
      ensures ok ==> Indexed(items, positions, addrs) && items == Added(old(items), param)
      ensures ok ==> |items| == |old(items)| + 1
    {
      if Refused(param) {
        return false;
      }
      IndexedStep(items, positions, addrs, param);
      ResolveByMap(items, addrs, param);
      var item := param;
      if item.name != "" {
        if item.kind == AddrItem {
          addrs := addrs[item.name := item.addr];
        } else if item.name in addrs {
          item := item.(kind := AddrItem, addr := addrs[item.name]);
        }
        if item.kind != ReplaceItem && item.name !in positions {
          positions := positions[item.name := |items|];
        }
      }
      items := items + [item];
      return true;
    }

    // The connector of the first triple is the target of the second, under a name of its own when
    // the caller gave none.
    method Quintuple(param1: Item, param2: Item, param3: Item, param4: Item, param5: Item) returns (ok: bool)
      requires Valid() && WellFormed(param1) && WellFormed(param2) && WellFormed(param3)
      requires WellFormed(param4) && WellFormed(param5)
      modifies this
      ensures ok <==>
                var connector := Named(param2, |old(items)| + 1);
                && connector.name !in [param1.name, param3.name]
                && !(param4.name != "" && param4.name in [param5.name, connector.name])
                && MayStand(param1) && MayStand(param2) && MayStand(param3) && MayStand(param4) && MayStand(param5)
      ensures ok ==> Valid()
      ensures ok ==>
                QuintupleEntered(old(items), items, param1, param2, param3, param4, param5)
      ensures ok && param2.name == "" ==> items[|old(items)| + 1].name == Named(param2, |old(items)| + 1).name
      ensures ok && param2.name == ""
              && (forall p: nat :: p <= |old(items)| ==> items[p].name != items[|items| - 1].name) ==>
                items[|items| - 1].name in positions && positions[items[|items| - 1].name] == |old(items)| + 1
    {
      var connector := param2;
      if connector.name == "" {
        connector := connector.(name := "_repl_" + Decimal(|items| + 1));
      }
      ghost var before := items;
      ok := Triple(param1, connector, param3);
      ghost var between := items;
      if ok {
        ok := Triple(param5, param4, Replace(connector.name));
      }
      if ok {
        BothEntered(before, between, items, param1, connector, param3, param5, param4, Replace(connector.name));
      }
    }
  }

  // The two triples of a quintuple; the last item names the connector of the first triple, which has
  // the name that was given, if one was.
  ghost predicate QuintupleEntered(
      before: seq<Item>, after: seq<Item>, a: Item, b: Item, c: Item, d: Item, e: Item)
  {
    var n := |before|;
    && |after| == n + 6
    && var connector := b.(name := after[n + 1].name);
    && connector.name != "" && (b.name != "" ==> connector.name == b.name)
    && TripleEntered(before, after[..n + 3], a, connector, c)
    && TripleEntered(after[..n + 3], after, e, d, Replace(connector.name))
  }

  lemma BothEntered(
      before: seq<Item>, between: seq<Item>, after: seq<Item>, a: Item, b: Item, c: Item, d: Item, e: Item, f: Item)
    requires TripleEntered(before, between, a, b, c) && TripleEntered(between, after, d, e, f)
    ensures |after| == |before| + 6 && after[..|before| + 3] == between
    ensures after[|before| + 1] == between[|before| + 1] && after[|before| + 1].name == b.name
    ensures after[|before| + 5].name == f.name
  {
    assert after[..|between|] == between;
  }
}
