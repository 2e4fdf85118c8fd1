// Extension modules of sc_memory_ext.c: the order in which they are initialised and shut down.
module Modules {

  // `loaded` says that the handle of the module is open.
  datatype Module = Module(path: string, priority: nat, loaded: bool)

  // ---- The comparison ----

  // `strcmp`, by its sign.
  function Compare(a: string, b: string): (r: int)
    ensures r == 0 <==> a == b
  {
    if a == "" then (if b == "" then 0 else -1)
    else if b == "" then 1
    else if a[0] < b[0] then -1
    else if a[0] > b[0] then 1
    else
      assert a == [a[0]] + a[1..] && b == [b[0]] + b[1..];
      Compare(a[1..], b[1..])
  }

  lemma {:induction false} CompareAntisymmetric(a: string, b: string)
    ensures Compare(a, b) < 0 <==> Compare(b, a) > 0
  {
    if a != "" && b != "" && a[0] == b[0] {
      CompareAntisymmetric(a[1..], b[1..]);
    }
  }

  lemma {:induction false} CompareTransitive(a: string, b: string, c: string)
    requires Compare(a, b) < 0 && Compare(b, c) < 0
    ensures Compare(a, c) < 0
  {
    if a != "" && b != "" && c != "" && a[0] == b[0] == c[0] {
      CompareTransitive(a[1..], b[1..], c[1..]);
    }
  }

  // One path is first in the order of a dictionary: where they part it has the smaller character, or
  // it ends there.
  ghost predicate InDictionaryOrder(a: string, b: string) {
    exists n: nat :: PartsAt(a, b, n) && (n == |a| || a[n] < b[n])
  }

  predicate PartsAt(a: string, b: string, n: nat) {
    n <= |a| && n < |b| && a[..n] == b[..n]
  }

  lemma PartsLater(a: string, b: string, n: nat)
    requires a != "" && b != "" && a[0] == b[0]
    ensures PartsAt(a, b, n + 1) <==> PartsAt(a[1..], b[1..], n)
  {
    if n < |a| && n + 1 < |b| {
      assert a[..n + 1] == [a[0]] + a[1..][..n] && b[..n + 1] == [b[0]] + b[1..][..n];
      assert a[..n + 1][1..] == a[1..][..n] && b[..n + 1][1..] == b[1..][..n];
    }
  }

  lemma PartsFirst(a: string, b: string, n: nat)
    requires PartsAt(a, b, n) && n > 0
    ensures a != "" && b != "" && a[0] == b[0]
  {
    assert a[0] == a[..n][0] && b[0] == b[..n][0];
  }

  lemma {:induction false} CompareIsDictionaryOrder(a: string, b: string)
    ensures Compare(a, b) < 0 <==> InDictionaryOrder(a, b)
  {
    if a != "" && b != "" && a[0] == b[0] {
      CompareIsDictionaryOrder(a[1..], b[1..]);
      if InDictionaryOrder(a[1..], b[1..]) {
        var n: nat :| PartsAt(a[1..], b[1..], n) && (n == |a[1..]| || a[1..][n] < b[1..][n]);
        PartsLater(a, b, n);
      }
      if InDictionaryOrder(a, b) {
        var n: nat :| PartsAt(a, b, n) && (n == |a| || a[n] < b[n]);
        PartsLater(a, b, n - 1);
        assert n - 1 == |a[1..]| || a[1..][n - 1] < b[1..][n - 1];
      }
    } else {
      if Compare(a, b) < 0 {
        assert PartsAt(a, b, 0);
      }
      if InDictionaryOrder(a, b) {
        var n: nat :| PartsAt(a, b, n) && (n == |a| || a[n] < b[n]);
        if n > 0 {
          PartsFirst(a, b, n);
        }
      }
    }
  }

  // `sc_priority_less`
  function PriorityLess(a: Module, b: Module): int {
    if a.priority < b.priority then -1
    else if a.priority > b.priority then 1
    else Compare(a.path, b.path)
  }

  // `sc_priority_great` when `back` is set.
  function ComparedBy(back: bool, a: Module, b: Module): int {
    if back then PriorityLess(b, a) else PriorityLess(a, b)
  }

  predicate Before(back: bool, a: Module, b: Module) { ComparedBy(back, a, b) < 0 }

  lemma BeforeIsStrictOrder(back: bool, a: Module, b: Module, c: Module)
    ensures Before(back, a, b) && Before(back, b, c) ==> Before(back, a, c)
    ensures a.path != b.path ==> (Before(back, a, b) <==> !Before(back, b, a))
    ensures !Before(back, a, a)
    ensures ComparedBy(back, b, a) <= 0 <==> !Before(back, a, b)
    ensures Before(back, a, b) <==> Before(!back, b, a)
  {
    CompareAntisymmetric(a.path, b.path);
    CompareAntisymmetric(b.path, a.path);
    if Before(back, a, b) && Before(back, b, c) && a.priority == b.priority == c.priority {
      if back {
        CompareTransitive(c.path, b.path, a.path);
      } else {
        CompareTransitive(a.path, b.path, c.path);
      }
    }
  }

  // ---- Sorted lists ----

  ghost predicate Sorted(back: bool, s: seq<Module>) {
    forall i: nat, k: nat :: i < k < |s| ==> Before(back, s[i], s[k])
  }

  // A module of lower priority comes first; among equals the paths decide.
  ghost predicate Precedes(a: Module, b: Module) {
    a.priority < b.priority || (a.priority == b.priority && InDictionaryOrder(a.path, b.path))
  }

  lemma SortedPrecedes(s: seq<Module>, i: nat, k: nat)
    requires Sorted(false, s) && i < k < |s|
    ensures Precedes(s[i], s[k])
  {
    assert Before(false, s[i], s[k]);
    CompareIsDictionaryOrder(s[i].path, s[k].path);
  }

  ghost predicate DistinctPaths(s: seq<Module>) {
    forall i: nat, k: nat :: i < k < |s| ==> s[i].path != s[k].path
  }

  function Elements(s: seq<Module>): set<Module> { set x <- s }

  function Reversed(s: seq<Module>): (r: seq<Module>)
    ensures |r| == |s| && forall i :: 0 <= i < |s| ==> r[i] == s[|s| - 1 - i]
  {
    if s == [] then [] else Reversed(s[1..]) + [s[0]]
  }

  lemma RestIsSorted(back: bool, s: seq<Module>)
    requires Sorted(back, s) && s != []
    ensures Sorted(back, s[1..]) && Elements(s[1..]) == Elements(s) - {s[0]}
  {
    BeforeIsStrictOrder(back, s[0], s[0], s[0]);
    assert s == [s[0]] + s[1..];
    assert forall x :: x in s <==> x == s[0] || x in s[1..];
    assert forall i :: 1 <= i < |s| ==> s[i] != s[0];
  }

  lemma FirstIsLeast(back: bool, s: seq<Module>, x: Module)
    requires Sorted(back, s) && x in s
    ensures x == s[0] || Before(back, s[0], x)
  {
  }

  lemma EmptyElements(s: seq<Module>)
    ensures Elements(s) == {} <==> s == []
  {
    if s != [] {
      assert s[0] in Elements(s);
    }
  }

  // There is one sorted list of given elements.
  lemma {:induction false} SortedIsUnique(back: bool, s: seq<Module>, t: seq<Module>)
    requires Sorted(back, s) && Sorted(back, t) && Elements(s) == Elements(t)
    ensures s == t
    decreases |s|
  {
    if s == [] || t == [] {
      EmptyElements(s);
      EmptyElements(t);
    } else {
      assert s[0] in Elements(s) && s[0] in t;
      assert t[0] in Elements(t) && t[0] in s;
      FirstIsLeast(back, s, t[0]);
      FirstIsLeast(back, t, s[0]);
      BeforeIsStrictOrder(back, s[0], t[0], s[0]);
      RestIsSorted(back, s);
      RestIsSorted(back, t);
      SortedIsUnique(back, s[1..], t[1..]);
      assert s == [s[0]] + s[1..] && t == [t[0]] + t[1..];
    }
  }

  // A list sorted the other way is the reverse.
  lemma SortedBackIsReversed(s: seq<Module>, t: seq<Module>)
    requires Sorted(false, s) && Sorted(true, t) && Elements(s) == Elements(t)
    ensures t == Reversed(s)
  {
    var r := Reversed(s);
    forall i: nat, k: nat | i < k < |r| ensures Before(true, r[i], r[k]) {
      BeforeIsStrictOrder(false, r[k], r[i], r[k]);
    }
    forall x ensures x in r <==> x in s {
      if x in s {
        var i :| 0 <= i < |s| && s[i] == x;
        assert r[|s| - 1 - i] == x;
      }
    }
    SortedIsUnique(true, r, t);
  }

  // `g_list_insert_sorted`: in front of the first element that does not come before it.
  method InsertSorted(back: bool, list: seq<Module>, m: Module) returns (r: seq<Module>)
    requires Sorted(back, list) && forall x <- list :: x.path != m.path
    ensures Sorted(back, r) && |r| == |list| + 1 && Elements(r) == Elements(list) + {m}
  {
    var i := 0;
    while i < |list| && ComparedBy(back, m, list[i]) > 0
      invariant 0 <= i <= |list|
      invariant forall k :: 0 <= k < i ==> Before(back, list[k], m)
    {
      BeforeIsStrictOrder(back, list[i], m, m);
      i := i + 1;
    }
    if i < |list| {
      assert list[i] in list;
      BeforeIsStrictOrder(back, list[i], m, m);
    }
    r := list[..i] + [m] + list[i..];
    InsertedIsSorted(back, list, m, i);
  }

  lemma InsertedIsSorted(back: bool, list: seq<Module>, m: Module, i: nat)
    requires Sorted(back, list) && i <= |list| && (i < |list| ==> Before(back, m, list[i]))
    requires forall k :: 0 <= k < i ==> Before(back, list[k], m)
    ensures
      var r := list[..i] + [m] + list[i..];
      Sorted(back, r) && Elements(r) == Elements(list) + {m}
  {
    var r := list[..i] + [m] + list[i..];
    assert list == list[..i] + list[i..];
    forall a: nat, b: nat | a < b < |r| ensures Before(back, r[a], r[b]) {
      if a == i {
        BeforeIsStrictOrder(back, m, list[i], list[b - 1]);
      }
    }
  }

  lemma SameElements(a: seq<Module>, b: seq<Module>)
    requires Elements(a) == Elements(b)
    ensures forall x :: x in a <==> x in b
  {
    assert forall x :: x in a <==> x in Elements(a);
    assert forall x :: x in b <==> x in Elements(b);
  }

  // `g_list_sort`, as an insertion sort.
  method SortModules(back: bool, list: seq<Module>) returns (r: seq<Module>)
    requires DistinctPaths(list)
    ensures Sorted(back, r) && |r| == |list| && Elements(r) == Elements(list)
  {
    r := [];
    var n := 0;
    while n < |list|
      invariant 0 <= n <= |list| && Sorted(back, r) && |r| == n && Elements(r) == Elements(list[..n])
    {
      SameElements(r, list[..n]);
      assert list[..n + 1] == list[..n] + [list[n]];
      r := InsertSorted(back, r, list[n]);
      n := n + 1;
    }
    assert list[..n] == list;
  }

  // ---- Collecting, initialising and shutting down ----

  datatype Event = Initialize(path: string) | Shutdown(path: string)

  // A file of an extension directory; `usable` when it opens as a module with the functions it needs.
  datatype Candidate = Candidate(path: string, usable: bool, priority: nat)

  // A module whose initialisation fails is shut down at once.
  function InitEvent(path: string, initialises: string -> bool): seq<Event> {
    if initialises(path) then [Initialize(path)] else [Initialize(path), Shutdown(path)]
  }

  function InitEvents(s: seq<Module>, initialises: string -> bool): seq<Event> {
    if s == [] then []
    else InitEvents(s[..|s| - 1], initialises) + InitEvent(s[|s| - 1].path, initialises)
  }

  function ShutEvents(s: seq<Module>): seq<Event> {
    if s == [] then []
    else ShutEvents(s[..|s| - 1]) + if s[|s| - 1].loaded then [Shutdown(s[|s| - 1].path)] else []
  }

  function Loaded(s: seq<Module>, initialises: string -> bool): (r: seq<Module>)
    ensures |r| == |s|
  {
    seq(|s|, i requires 0 <= i < |s| => s[i].(loaded := s[i].loaded && initialises(s[i].path)))
  }

  lemma PathsStayDistinct(list: seq<Module>, m: Module, r: seq<Module>)
    requires DistinctPaths(list) && (forall x <- list :: x.path != m.path)
    requires Sorted(false, r) && Elements(r) == Elements(list) + {m}
    ensures DistinctPaths(r)
  {
    forall i: nat, k: nat | i < k < |r| ensures r[i].path != r[k].path {
      BeforeIsStrictOrder(false, r[i], r[i], r[i]);
      assert Before(false, r[i], r[k]);
      assert r[i] in Elements(r) && r[k] in Elements(r);
      assert r[i] == m || r[i] in list;
      assert r[k] == m || r[k] in list;
    }
  }

  // The list while the modules below n have been initialised.
  function LoadedBelow(s: seq<Module>, n: nat, initialises: string -> bool): (r: seq<Module>)
    requires n <= |s|
    ensures |r| == |s| && (n < |s| ==> r[n] == s[n])
  {
    Loaded(s[..n], initialises) + s[n..]
  }

  lemma OneMoreInitialised(s: seq<Module>, n: nat, initialises: string -> bool)
    requires n < |s|
    ensures InitEvents(s[..n + 1], initialises) == InitEvents(s[..n], initialises) + InitEvent(s[n].path, initialises)
    ensures LoadedBelow(s, n + 1, initialises) ==
            LoadedBelow(s, n, initialises)[n := s[n].(loaded := s[n].loaded && initialises(s[n].path))]
  {
    assert s[..n + 1][..n] == s[..n];
    assert Loaded(s[..n + 1], initialises)[..n] == Loaded(s[..n], initialises);
  }

  lemma AllInitialised(s: seq<Module>, initialises: string -> bool)
    ensures LoadedBelow(s, 0, initialises) == s && LoadedBelow(s, |s|, initialises) == Loaded(s, initialises)
    ensures InitEvents(s[..|s|], initialises) == InitEvents(s, initialises) && InitEvents(s[..0], initialises) == []
  {
    assert s[..|s|] == s;
  }

  lemma LoadedKeepsOrder(s: seq<Module>, initialises: string -> bool)
    requires Sorted(false, s) && DistinctPaths(s)
    ensures Sorted(false, Loaded(s, initialises)) && DistinctPaths(Loaded(s, initialises))
  {
    var after := Loaded(s, initialises);
    forall i: nat, k: nat | i < k < |after| ensures Before(false, after[i], after[k]) {
      assert Before(false, s[i], s[k]);
    }
  }

  method InitializeOne(m: Module, initialises: string -> bool) returns (after: Module, log: seq<Event>)
    ensures after == m.(loaded := m.loaded && initialises(m.path)) && log == InitEvent(m.path, initialises)
  {
    after, log := m, [Initialize(m.path)];
    if !initialises(m.path) {
      log := log + [Shutdown(m.path)];
      after := m.(loaded := false);
    }
  }

  // The loop of `sc_ext_initialize` over the list.
  method RunInitializers(list: seq<Module>, initialises: string -> bool)
    returns (modules: seq<Module>, log: seq<Event>)
    ensures modules == Loaded(list, initialises) && log == InitEvents(list, initialises)
  {
    var n := 0;
    modules, log := list, [];
    AllInitialised(list, initialises);
    while n < |modules|
      invariant 0 <= n <= |modules| == |list|
      invariant modules == LoadedBelow(list, n, initialises)
      invariant log == InitEvents(list[..n], initialises)
    {
      var module_ := modules[n];
      OneMoreInitialised(list, n, initialises);
      var after, calls := InitializeOne(module_, initialises);
      log := log + calls;
      modules := modules[n := after];
      n := n + 1;
    }
  }

  // The loop of `sc_ext_shutdown`.
  method RunShutdowns(list: seq<Module>) returns (log: seq<Event>)
    ensures log == ShutEvents(list)
  {
    var n := 0;
    log := [];
    while n < |list|
      invariant 0 <= n <= |list| && log == ShutEvents(list[..n])
    {
      assert list[..n + 1][..n] == list[..n];
      if list[n].loaded {
        log := log + [Shutdown(list[n].path)];
      }
      n := n + 1;
    }
    assert list[..n] == list;
  }

  class Extensions {
    var modules: seq<Module>
    // The calls of module functions so far.
    var events: seq<Event>

    ghost predicate Valid()
      reads this
    {
      Sorted(false, modules) && DistinctPaths(modules)
    }

    constructor ()
      ensures Valid() && modules == [] && events == []
    {
      modules, events := [], [];
    }

    method Collect(files: seq<Candidate>)
      requires Valid() && forall i: nat, k: nat :: i < k < |files| ==> files[i].path != files[k].path
      requires forall f <- files, m <- modules :: f.path != m.path
      modifies this
      ensures Valid() && events == old(events)
      ensures Elements(modules) ==
              old(Elements(modules)) + set f <- files | f.usable :: Module(f.path, f.priority, true)
      ensures forall i: nat, k: nat :: i < k < |modules| ==> Precedes(modules[i], modules[k])
    {
      var n := 0;
      while n < |files|
        invariant 0 <= n <= |files| && Valid() && events == old(events)
        invariant Elements(modules) ==
                  old(Elements(modules)) + set f <- files[..n] | f.usable :: Module(f.path, f.priority, true)
      {
        assert files[..n + 1] == files[..n] + [files[n]];
        if files[n].usable {
          var m := Module(files[n].path, files[n].priority, true);
          assert forall x <- modules :: x in Elements(modules);
          ghost var was := modules;
          modules := InsertSorted(false, modules, m);
          PathsStayDistinct(was, m, modules);
        }
        n := n + 1;
      }
      assert files[..n] == files;
      forall i: nat, k: nat | i < k < |modules| ensures Precedes(modules[i], modules[k]) {
        SortedPrecedes(modules, i, k);
      }
    }

    method InitializeAll(initialises: string -> bool)
      requires Valid()
      modifies this
      ensures Valid() && modules == Loaded(old(modules), initialises)
      ensures events == old(events) + InitEvents(old(modules), initialises)
    {
      LoadedKeepsOrder(modules, initialises);
      var log;
      modules, log := RunInitializers(modules, initialises);
      events := events + log;
    }

    method ShutdownAll()
      requires Valid()
      modifies this
      ensures modules == [] && events == old(events) + ShutEvents(Reversed(old(modules)))
    {
      var list := SortModules(true, modules);
      SortedBackIsReversed(modules, list);
      var log := RunShutdowns(list);
      events := events + log;
      modules := [];
    }
  }

  // ---- A whole run ----

  // Collected modules are all open when the run begins.
  ghost predicate Fresh(s: seq<Module>) {
    DistinctPaths(s) && forall m <- s :: m.loaded
  }

  predicate HasPath(s: seq<Module>, p: string) {
    exists m <- s :: m.path == p
  }

  lemma HasPathSnoc(s: seq<Module>, last: Module, p: string)
    ensures HasPath(s + [last], p) <==> HasPath(s, p) || last.path == p
  {
    assert last in s + [last];
    assert forall m <- s :: m in s + [last];
  }

  lemma InitEventCounts(path: string, initialises: string -> bool, p: string)
    ensures multiset(InitEvent(path, initialises))[Initialize(p)] == if path == p then 1 else 0
    ensures multiset(InitEvent(path, initialises))[Shutdown(p)] == if path == p && !initialises(p) then 1 else 0
  {
  }

  lemma InitEventsSnoc(s: seq<Module>, last: Module, initialises: string -> bool)
    ensures InitEvents(s + [last], initialises) == InitEvents(s, initialises) + InitEvent(last.path, initialises)
  {
    assert (s + [last])[..|s|] == s;
  }

  lemma DistinctSnoc(s: seq<Module>, last: Module)
    requires DistinctPaths(s + [last])
    ensures DistinctPaths(s) && !HasPath(s, last.path)
  {
    assert forall i: nat :: i < |s| ==> (s + [last])[i] == s[i];
    assert (s + [last])[|s|] == last;
  }

  lemma FrontAndLast(s: seq<Module>)
    requires s != []
    ensures s == s[..|s| - 1] + [s[|s| - 1]]
  {
  }

  lemma InitCountsSnoc(s: seq<Module>, last: Module, initialises: string -> bool, p: string)
    requires DistinctPaths(s + [last])
    requires multiset(InitEvents(s, initialises))[Initialize(p)] == if HasPath(s, p) then 1 else 0
    requires multiset(InitEvents(s, initialises))[Shutdown(p)] == if HasPath(s, p) && !initialises(p) then 1 else 0
    ensures multiset(InitEvents(s + [last], initialises))[Initialize(p)] == if HasPath(s + [last], p) then 1 else 0
    ensures multiset(InitEvents(s + [last], initialises))[Shutdown(p)] ==
            if HasPath(s + [last], p) && !initialises(p) then 1 else 0
  {
    DistinctSnoc(s, last);
    InitEventCounts(last.path, initialises, p);
    HasPathSnoc(s, last, p);
    InitEventsSnoc(s, last, initialises);
  }

  lemma {:induction false} InitCounts(s: seq<Module>, initialises: string -> bool, p: string)
    requires DistinctPaths(s)
    ensures multiset(InitEvents(s, initialises))[Initialize(p)] == if HasPath(s, p) then 1 else 0
    ensures multiset(InitEvents(s, initialises))[Shutdown(p)] == if HasPath(s, p) && !initialises(p) then 1 else 0
  {
    if s != [] {
      FrontAndLast(s);
      InitCounts(s[..|s| - 1], initialises, p);
      InitCountsSnoc(s[..|s| - 1], s[|s| - 1], initialises, p);
    }
  }

  predicate HasLoaded(s: seq<Module>, p: string) {
    exists m <- s :: m.path == p && m.loaded
  }

  lemma HasLoadedSnoc(s: seq<Module>, last: Module, p: string)
    ensures HasLoaded(s + [last], p) <==> HasLoaded(s, p) || (last.path == p && last.loaded)
  {
    assert last in s + [last];
    assert forall m <- s :: m in s + [last];
  }

  lemma {:induction false} ShutCounts(s: seq<Module>, p: string)
    requires DistinctPaths(s)
    ensures multiset(ShutEvents(s))[Initialize(p)] == 0
    ensures multiset(ShutEvents(s))[Shutdown(p)] == if HasLoaded(s, p) then 1 else 0
  {
    if s != [] {
      var rest, last := s[..|s| - 1], s[|s| - 1];
      ShutCounts(rest, p);
      assert s == rest + [last];
      HasLoadedSnoc(rest, last, p);
      assert last.path == p ==> !HasLoaded(rest, p);
    }
  }

  lemma ReversedKeeps(s: seq<Module>)
    ensures forall m :: m in Reversed(s) <==> m in s
    ensures DistinctPaths(s) ==> DistinctPaths(Reversed(s))
  {
    forall m ensures m in Reversed(s) <==> m in s {
      if m in s {
        var i :| 0 <= i < |s| && s[i] == m;
        assert Reversed(s)[|s| - 1 - i] == m;
      }
    }
  }

  lemma LoadedKeepsPaths(s: seq<Module>, initialises: string -> bool)
    requires DistinctPaths(s)
    ensures DistinctPaths(Loaded(s, initialises))
  {
  }

  // A module is open after the run exactly when its initialiser succeeded.
  lemma OpenAfterwards(s: seq<Module>, initialises: string -> bool, p: string)
    requires Fresh(s) && HasPath(s, p)
    ensures HasLoaded(Loaded(s, initialises), p) <==> initialises(p)
  {
    var after := Loaded(s, initialises);
    var m :| m in s && m.path == p;
    var i :| 0 <= i < |s| && s[i] == m;
    assert after[i] in after && after[i].path == p && after[i].loaded == initialises(p);
    if x :| x in after && x.path == p && x.loaded {
      var k :| 0 <= k < |after| && after[k] == x;
      assert initialises(s[k].path);
    }
  }

  lemma ReversedHasLoaded(s: seq<Module>, p: string)
    ensures HasLoaded(Reversed(s), p) <==> HasLoaded(s, p)
  {
    ReversedKeeps(s);
  }

  lemma CountOfBoth(a: seq<Event>, b: seq<Event>, e: Event)
    ensures multiset(a + b)[e] == multiset(a)[e] + multiset(b)[e]
  {
  }

  // Over initialisation and shutdown every module is initialised once and shut down once.
  lemma EveryModuleOnce(s: seq<Module>, initialises: string -> bool, p: string)
    requires Fresh(s) && HasPath(s, p)
    ensures
      var events := InitEvents(s, initialises) + ShutEvents(Reversed(Loaded(s, initialises)));
      multiset(events)[Initialize(p)] == 1 && multiset(events)[Shutdown(p)] == 1
  {
    var after := Loaded(s, initialises);
    LoadedKeepsPaths(s, initialises);
    ReversedKeeps(after);
    InitCounts(s, initialises, p);
    ShutCounts(Reversed(after), p);
    OpenAfterwards(s, initialises, p);
    ReversedHasLoaded(after, p);
    CountOfBoth(InitEvents(s, initialises), ShutEvents(Reversed(after)), Initialize(p));
    CountOfBoth(InitEvents(s, initialises), ShutEvents(Reversed(after)), Shutdown(p));
  }

  function Paths(events: seq<Event>, initialised: bool): seq<string> {
    if events == [] then []
    else
      var last := events[|events| - 1];
      Paths(events[..|events| - 1], initialised) + if last.Initialize? == initialised then [last.path] else []
  }

  function PathsOf(s: seq<Module>): seq<string> {
    seq(|s|, i requires 0 <= i < |s| => s[i].path)
  }

  function OnlyLoaded(s: seq<Module>): seq<Module> {
    if s == [] then [] else OnlyLoaded(s[..|s| - 1]) + if s[|s| - 1].loaded then [s[|s| - 1]] else []
  }

  lemma {:induction false} ShutPaths(s: seq<Module>)
    ensures Paths(ShutEvents(s), false) == PathsOf(OnlyLoaded(s))
  {
    if s != [] {
      var rest, last := s[..|s| - 1], s[|s| - 1];
      ShutPaths(rest);
      assert PathsOf(OnlyLoaded(rest) + []) == PathsOf(OnlyLoaded(rest));
      assert ShutEvents(rest) + [] == ShutEvents(rest) && OnlyLoaded(rest) + [] == OnlyLoaded(rest);
      if last.loaded {
        assert ShutEvents(s)[..|ShutEvents(s)| - 1] == ShutEvents(rest);
        assert PathsOf(OnlyLoaded(rest) + [last]) == PathsOf(OnlyLoaded(rest)) + [last.path];
      }
    }
  }

  lemma LoadedSnoc(s: seq<Module>, m: Module)
    ensures OnlyLoaded(s + [m]) == OnlyLoaded(s) + if m.loaded then [m] else []
  {
    assert (s + [m])[..|s|] == s;
  }

  lemma {:induction false} LoadedOfReversed(s: seq<Module>)
    ensures OnlyLoaded(Reversed(s)) == Reversed(OnlyLoaded(s))
  {
    if s != [] {
      LoadedOfReversed(s[..|s| - 1]);
      LoadedOfLast(s[..|s| - 1], s[|s| - 1]);
      assert s == s[..|s| - 1] + [s[|s| - 1]];
    }
  }

  lemma LoadedOfLast(s: seq<Module>, m: Module)
    requires OnlyLoaded(Reversed(s)) == Reversed(OnlyLoaded(s))
    ensures OnlyLoaded(Reversed(s + [m])) == Reversed(OnlyLoaded(s + [m]))
  {
    ReversedSnoc(s, m);
    LoadedOfFront(m, Reversed(s));
    LoadedSnoc(s, m);
    if m.loaded {
      ReversedSnoc(OnlyLoaded(s), m);
    } else {
      assert OnlyLoaded(s) + [] == OnlyLoaded(s);
    }
  }

  // A module that is shut down while the others are initialised has just been initialised itself.
  ghost predicate ShutAtOnce(events: seq<Event>) {
    forall k: nat :: k < |events| && events[k].Shutdown? ==> k > 0 && events[k - 1] == Initialize(events[k].path)
  }

  lemma PathsSnoc(events: seq<Event>, e: Event, initialised: bool)
    ensures Paths(events + [e], initialised) ==
            Paths(events, initialised) + if e.Initialize? == initialised then [e.path] else []
  {
    assert (events + [e])[..|events|] == events;
  }

  lemma InitEventPaths(events: seq<Event>, path: string, initialises: string -> bool)
    ensures Paths(events + InitEvent(path, initialises), true) == Paths(events, true) + [path]
    ensures Paths(events + InitEvent(path, initialises), false) ==
            Paths(events, false) + if initialises(path) then [] else [path]
  {
    PathsSnoc(events, Initialize(path), true);
    PathsSnoc(events, Initialize(path), false);
    if !initialises(path) {
      PathsSnoc(events + [Initialize(path)], Shutdown(path), true);
      PathsSnoc(events + [Initialize(path)], Shutdown(path), false);
      assert events + [Initialize(path), Shutdown(path)] == events + [Initialize(path)] + [Shutdown(path)];
    }
  }

  lemma ShutAtOnceMore(events: seq<Event>, path: string, initialises: string -> bool)
    requires ShutAtOnce(events)
    ensures ShutAtOnce(events + InitEvent(path, initialises))
  {
    var all := events + InitEvent(path, initialises);
    forall k: nat | k < |all| && all[k].Shutdown? ensures k > 0 && all[k - 1] == Initialize(all[k].path) {
      if k < |events| {
        assert all[k] == events[k] && events[k - 1] == Initialize(events[k].path);
        assert all[k - 1] == events[k - 1];
      }
    }
  }

  lemma PathsOfSnoc(s: seq<Module>, last: Module)
    ensures PathsOf(s + [last]) == PathsOf(s) + [last.path]
  {
  }

  lemma InitialisedSnoc(s: seq<Module>, last: Module, initialises: string -> bool)
    requires Paths(InitEvents(s, initialises), true) == PathsOf(s) && ShutAtOnce(InitEvents(s, initialises))
    ensures Paths(InitEvents(s + [last], initialises), true) == PathsOf(s + [last])
    ensures ShutAtOnce(InitEvents(s + [last], initialises))
  {
    InitEventsSnoc(s, last, initialises);
    InitEventPaths(InitEvents(s, initialises), last.path, initialises);
    ShutAtOnceMore(InitEvents(s, initialises), last.path, initialises);
    PathsOfSnoc(s, last);
  }

  // The modules are initialised in the order of the list, and one that fails is shut down at once.
  lemma {:induction false} InitialisedInOrder(s: seq<Module>, initialises: string -> bool)
    ensures Paths(InitEvents(s, initialises), true) == PathsOf(s) && ShutAtOnce(InitEvents(s, initialises))
  {
    if s != [] {
      FrontAndLast(s);
      InitialisedInOrder(s[..|s| - 1], initialises);
      InitialisedSnoc(s[..|s| - 1], s[|s| - 1], initialises);
    }
  }

  lemma {:induction false} LoadedOfFront(m: Module, s: seq<Module>)
    ensures OnlyLoaded([m] + s) == (if m.loaded then [m] else []) + OnlyLoaded(s)
  {
    if s == [] {
      assert [m] + s == [m] && [m][..0] == [];
    } else {
      assert ([m] + s)[..|s|] == [m] + s[..|s| - 1];
      LoadedOfFront(m, s[..|s| - 1]);
    }
  }

  lemma {:induction false} ReversedSnoc(s: seq<Module>, x: Module)
    ensures Reversed(s + [x]) == [x] + Reversed(s)
  {
    if s != [] {
      assert (s + [x])[1..] == s[1..] + [x];
      ReversedSnoc(s[1..], x);
    } else {
      assert ([x])[1..] == [];
    }
  }

  // The modules that initialised are shut down in the reverse of the order in which they did.
  lemma ShutdownIsReversed(s: seq<Module>, initialises: string -> bool)
    ensures
      var after := Loaded(s, initialises);
      Paths(ShutEvents(Reversed(after)), false) == PathsOf(Reversed(OnlyLoaded(after)))
  {
    var after := Loaded(s, initialises);
    ShutPaths(Reversed(after));
    LoadedOfReversed(after);
  }
}
