// ScObject::Demangle of sc_object.cpp: length-prefixed names, section 5.1 of the Itanium C++ ABI.
module Demangle {
  import opened ScText
  import opened Orbits
  import opened Wrappers

  // `size_t` wraps around at this.
  const SIZE: nat := 0x1_0000_0000_0000_0000

  function Wrap(n: nat): (r: nat)
    ensures r < SIZE && (n < SIZE ==> r == n)
  {
    if n < SIZE then n else Wrap(n - SIZE)
  }

  // ---- One round of the outer loop ----

  function RunEnd(s: string, i: nat): (j: nat)
    requires i <= |s|
    ensures i <= j <= |s| && AllDigits(s[i..j]) && (j < |s| ==> !IsDigit(s[j]))
    ensures i < |s| && IsDigit(s[i]) ==> i < j
    decreases |s| - i
  {
    if i < |s| && IsDigit(s[i]) then
      var j := RunEnd(s, i + 1);
      assert s[i..j] == [s[i]] + s[i + 1..j];
      j
    else i
  }

  datatype Round = Stop | TooLong | Part(name: string, next: nat)

  function RoundAt(s: string, i: nat): (r: Round)
    requires i <= |s|
    ensures r.Part? ==> r.next <= |s|
  {
    if i == |s| || !IsDigit(s[i]) then Stop
    else
      var j := RunEnd(s, i);
      var len := Wrap(ValueOf(s[i..j]));
      var next := Wrap(j + len);
      if next <= |s| then Part(s[j..if j + len <= |s| then j + len else |s|], next) else TooLong
  }

  // The loop ends within n more parts.
  predicate Ends(s: string, i: nat, n: nat)
    requires i <= |s|
    decreases n
  {
    var round := RoundAt(s, i);
    round.Part? ==> n > 0 && Ends(s, round.next, n - 1)
  }

  function Parse(s: string, i: nat, demangled: string, n: nat): string
    requires i <= |s| && Ends(s, i, n)
    decreases n
  {
    match RoundAt(s, i)
    case Stop => demangled
    case TooLong => s
    case Part(name, next) => Parse(s, next, Appended(demangled, name), n - 1)
  }

  function Start(s: string): (i: nat)
    ensures i <= |s|
  {
    if s != "" && s[0] == 'N' then 1 else 0
  }

  // ---- The code ----

  lemma {:induction false} WrapMultiple(a: nat, k: nat)
    ensures Wrap(a + k * SIZE) == Wrap(a)
    decreases k
  {
    if k > 0 {
      assert a + k * SIZE == (a + (k - 1) * SIZE) + SIZE;
      WrapMultiple(a, k - 1);
    }
  }

  lemma {:induction false} WrappedLength(value: nat, d: nat)
    ensures Wrap(Wrap(value) * 10 + d) == Wrap(10 * value + d)
    decreases value
  {
    if value >= SIZE {
      WrappedLength(value - SIZE, d);
      WrapMultiple(10 * (value - SIZE) + d, 10);
    }
  }

  lemma OneMoreDigit(s: string, i: nat, j: nat)
    requires i <= j < |s| && AllDigits(s[i..j]) && IsDigit(s[j])
    ensures AllDigits(s[i..j + 1]) && ValueOf(s[i..j + 1]) == 10 * ValueOf(s[i..j]) + DigitOf(s[j])
  {
    assert s[i..j + 1] == s[i..j] + [s[j]];
    assert s[i..j + 1][..j - i] == s[i..j];
  }

  lemma {:induction false} RunEndIsUnique(s: string, i: nat, j: nat)
    requires i <= j <= |s| && AllDigits(s[i..j]) && (j < |s| ==> !IsDigit(s[j]))
    ensures RunEnd(s, i) == j
    decreases j - i
  {
    if i < j {
      assert s[i] == s[i..j][0];
      assert s[i + 1..j] == s[i..j][1..];
      RunEndIsUnique(s, i + 1, j);
    }
  }

  lemma RoundFrom(s: string, i: nat, j: nat, len: nat)
    requires i < |s| && IsDigit(s[i]) && j == RunEnd(s, i) && len == Wrap(ValueOf(s[i..j]))
    ensures RoundAt(s, i) ==
            if Wrap(j + len) <= |s| then Part(s[j..if j + len <= |s| then j + len else |s|], Wrap(j + len)) else TooLong
  {
  }

  function Appended(demangled: string, name: string): string {
    (if demangled == "" then "" else demangled + "::") + name
  }

  // The loop ends from here, with this result.
  predicate Yields(s: string, i: nat, demangled: string, n: nat, result: string)
    requires i <= |s|
  {
    Ends(s, i, n) && Parse(s, i, demangled, n) == result
  }

  // What the whole name is demangled to.
  predicate ParsesTo(s: string, result: string) {
    Yields(s, Start(s), "", |s| + 1, result)
  }

  lemma YieldsStep(s: string, i: nat, demangled: string, n: nat, name: string, next: nat, result: string)
    requires i <= |s| && RoundAt(s, i) == Part(name, next) && n > 0
    requires Yields(s, next, Appended(demangled, name), n - 1, result)
    ensures Yields(s, i, demangled, n, result)
  {
  }

  lemma YieldsStop(s: string, i: nat, demangled: string, n: nat)
    requires i <= |s| && !RoundAt(s, i).Part?
    ensures Yields(s, i, demangled, n, if RoundAt(s, i).Stop? then demangled else s)
  {
  }

  lemma ParseStep(s: string, i: nat, demangled: string, n: nat, name: string, next: nat)
    requires i <= |s| && RoundAt(s, i) == Part(name, next)
    ensures Ends(s, i, n) <==> n > 0 && Ends(s, next, n - 1)
    ensures Ends(s, i, n) ==> Parse(s, i, demangled, n) == Parse(s, next, Appended(demangled, name), n - 1)
  {
  }

  lemma ParseStop(s: string, i: nat, demangled: string, n: nat)
    requires i <= |s| && !RoundAt(s, i).Part?
    ensures Ends(s, i, n) && Parse(s, i, demangled, n) == if RoundAt(s, i).Stop? then demangled else s
  {
  }

  // The inner loop.
  method ReadLength(mangledName: string, begin: nat) returns (len: nat, i: nat)
    requires begin <= |mangledName| < SIZE
    ensures i == RunEnd(mangledName, begin) && len == Wrap(ValueOf(mangledName[begin..i]))
  {
    len, i := 0, begin;
    assert mangledName[begin..i] == "";
    while i < |mangledName| && IsDigit(mangledName[i])
      invariant begin <= i <= |mangledName| && AllDigits(mangledName[begin..i])
      invariant len == Wrap(ValueOf(mangledName[begin..i]))
    {
      OneMoreDigit(mangledName, begin, i);
      WrappedLength(ValueOf(mangledName[begin..i]), DigitOf(mangledName[i]));
      len := Wrap(len * 10 + DigitOf(mangledName[i]));
      i := i + 1;
    }
    RunEndIsUnique(mangledName, begin, i);
  }

  // One length, and the name behind it unless that reaches past the end.
  method ReadPart(mangledName: string, begin: nat) returns (round: Round)
    requires begin < |mangledName| < SIZE && IsDigit(mangledName[begin])
    ensures round == RoundAt(mangledName, begin) && !round.Stop?
  {
    var len, i := ReadLength(mangledName, begin);
    RoundFrom(mangledName, begin, i, len);
    if Wrap(i + len) <= |mangledName| {
      round := Part(mangledName[i..if i + len <= |mangledName| then i + len else |mangledName|], Wrap(i + len));
    } else {
      round := TooLong;
    }
  }

  method Demangle(mangledName: string) returns (demangled: string)
    requires |mangledName| < SIZE && Ends(mangledName, Start(mangledName), |mangledName| + 1)
    ensures ParsesTo(mangledName, demangled)
  {
    demangled := "";
    var i: nat := Start(mangledName);
    ghost var n: nat := |mangledName| + 1;
    while i < |mangledName| && IsDigit(mangledName[i])
      invariant i <= |mangledName| && Ends(mangledName, i, n)
      invariant Parse(mangledName, i, demangled, n) ==
                Parse(mangledName, Start(mangledName), "", |mangledName| + 1)
      decreases n
    {
      var round := ReadPart(mangledName, i);
      if round.TooLong? {
        ParseStop(mangledName, i, demangled, n);
        return mangledName;
      }
      ParseStep(mangledName, i, demangled, n, round.name, round.next);
      if demangled != "" {
        demangled := demangled + "::";
      }
      demangled := demangled + round.name;
      i, n := round.next, n - 1;
    }
    ParseStop(mangledName, i, demangled, n);
  }

  // ---- When the loop ends ----

  function NextOf(s: string): (f: nat -> Option<nat>)
  {
    (p: nat) => if p <= |s| && RoundAt(s, p).Part? then Some(RoundAt(s, p).next) else None
  }

  lemma {:induction false} EndsIsIterate(s: string, i: nat, n: nat)
    requires i <= |s|
    ensures Ends(s, i, n) <==> Iterate(NextOf(s), i, n + 1).None?
    decreases n
  {
    if RoundAt(s, i).Part? && n > 0 {
      EndsIsIterate(s, RoundAt(s, i).next, n - 1);
    }
  }

  lemma NextStays(s: string)
    ensures Bounded(NextOf(s), |s|)
  {
  }

  // The parse ends exactly when it ends within as many parts as the name has positions; otherwise it
  // comes back to a position it has been at.
  lemma EndsSoonOrNever(s: string, n: nat)
    ensures Ends(s, Start(s), n) ==> Ends(s, Start(s), |s| + 1)
  {
    EndsIsIterate(s, Start(s), n);
    EndsIsIterate(s, Start(s), |s| + 1);
    NextStays(s);
    SoonOrNever(NextOf(s), Start(s), |s|, n + 1);
  }

  // The loop ends exactly when it never comes back to a position it has been at.
  lemma EndsUnlessItReturns(s: string)
    ensures Ends(s, Start(s), |s| + 1) <==> !Returns(NextOf(s), Start(s))
  {
    EndsIsIterate(s, Start(s), |s| + 1);
    NextStays(s);
    StopsUnlessItReturns(NextOf(s), Start(s), |s|, |s| + 2);
  }

  // A round at this position has an end of the name that `size_t` cannot hold.
  predicate WrapsAt(s: string, p: nat) {
    p < |s| && IsDigit(s[p]) && RunEnd(s, p) + Wrap(ValueOf(s[p..RunEnd(s, p)])) >= SIZE
  }

  ghost predicate WrapReached(s: string, i: nat) {
    exists k: nat, p: nat :: Iterate(NextOf(s), i, k) == Some(p) && WrapsAt(s, p)
  }

  // Every other round moves on, so a loop that does not end has reached a round that wraps.
  lemma {:induction false} EndsOrWraps(s: string, i: nat, n: nat)
    requires i <= |s| < SIZE && |s| - i <= n
    ensures Ends(s, i, n) || WrapReached(s, i)
    decreases n
  {
    if WrapsAt(s, i) {
      assert Iterate(NextOf(s), i, 0) == Some(i);
    } else if RoundAt(s, i).Part? {
      var next := RoundAt(s, i).next;
      EndsOrWraps(s, next, n - 1);
      if WrapReached(s, next) {
        var k: nat, p: nat :| Iterate(NextOf(s), next, k) == Some(p) && WrapsAt(s, p);
        assert Iterate(NextOf(s), i, k + 1) == Some(p);
      }
    }
  }

  // Where the end of a name wraps around to a position in the string, the name is all that is left.
  lemma WrappedPart(s: string, p: nat)
    requires WrapsAt(s, p) && |s| < SIZE && RoundAt(s, p).Part?
    ensures RoundAt(s, p).name == s[RunEnd(s, p)..]
  {
    assert s[RunEnd(s, p)..|s|] == s[RunEnd(s, p)..];
  }

  // No number in the name comes near the capacity of `size_t`.
  predicate NumbersFit(s: string) {
    forall p: nat :: p < |s| && IsDigit(s[p]) ==> ValueOf(s[p..RunEnd(s, p)]) + |s| < SIZE
  }

  lemma NumbersThatFitEnd(s: string)
    requires NumbersFit(s) && |s| < SIZE
    ensures Ends(s, Start(s), |s| + 1)
  {
    forall p: nat | p < |s| && IsDigit(s[p]) ensures !WrapsAt(s, p) {
      assert RunEnd(s, p) <= |s|;
    }
    EndsOrWraps(s, Start(s), |s| + 1);
  }

  method DemangleFitting(mangledName: string) returns (demangled: string)
    requires |mangledName| < SIZE && NumbersFit(mangledName)
    ensures ParsesTo(mangledName, demangled)
  {
    NumbersThatFitEnd(mangledName);
    demangled := Demangle(mangledName);
  }

  // The length that this name spells wraps the position around to where its digits begin.
  function Endless(): string { Decimal(SIZE - 20) }

  lemma {:induction false} WrapsForEver(n: nat)
    ensures Start(Endless()) == 0 && !Ends(Endless(), 0, n)
  {
    WrapsOnce();
    if n > 0 {
      WrapsForEver(n - 1);
    }
  }

  lemma WrapsOnce()
    ensures RoundAt(Endless(), 0).Part? && RoundAt(Endless(), 0).next == 0 && Start(Endless()) == 0
  {
    var s := Endless();
    EndlessLength();
    DecimalRoundTrip(SIZE - 20);
    assert s[0] in s && s[0..20] == s;
    RunEndIsUnique(s, 0, 20);
    RoundFrom(s, 0, 20, SIZE - 20);
  }

  lemma EndlessLength()
    ensures |Endless()| == 20
  {
    assert Power10(4) == 10000 && Power10(8) == 100000000 && Power10(12) == 1000000000000;
    assert Power10(16) == 10000000000000000 && Power10(20) == 100000000000000000000;
    DecimalLength(SIZE - 20, 20);
  }

  // ---- The inverse ----

  predicate IsName(name: string) { name != "" && !IsDigit(name[0]) }

  // Every name behind its length.
  function Body(names: seq<string>): string {
    if names == [] then "" else Decimal(|names[0]|) + names[0] + Body(names[1..])
  }

  function Mangled(names: seq<string>): string { "N" + Body(names) + "E" }

  // The names with "::" between them.
  function Joined(names: seq<string>): string
    requires names != []
  {
    if |names| == 1 then names[0] else names[0] + "::" + Joined(names[1..])
  }

  function AllAppended(demangled: string, names: seq<string>): string
    decreases |names|
  {
    if names == [] then demangled else AllAppended(Appended(demangled, names[0]), names[1..])
  }

  lemma {:induction false} AppendedIsJoined(demangled: string, names: seq<string>)
    requires names != [] && demangled != "" && forall name <- names :: IsName(name)
    ensures AllAppended(demangled, names) == demangled + "::" + Joined(names)
    decreases |names|
  {
    assert names[0] in names;
    if |names| > 1 {
      AppendedIsJoined(Appended(demangled, names[0]), names[1..]);
      assert demangled + "::" + names[0] + "::" + Joined(names[1..]) ==
             demangled + "::" + (names[0] + "::" + Joined(names[1..]));
    } else {
      assert names[1..] == [];
    }
  }

  lemma AllAppendedIsJoined(names: seq<string>)
    requires names != [] && forall name <- names :: IsName(name)
    ensures AllAppended("", names) == Joined(names)
  {
    assert "" + names[0] == names[0] && names[0] in names;
    if |names| > 1 {
      AppendedIsJoined(names[0], names[1..]);
    } else {
      assert names[1..] == [];
    }
  }

  lemma TakeAndDrop(u: string, digits: string, name: string, rest: string)
    requires u == digits + (name + rest)
    ensures |u| == |digits| + |name| + |rest|
    ensures u[..|digits|] == digits && u[|digits|..|digits| + |name|] == name && u[|digits| + |name|..] == rest
  {
  }

  lemma SplitTwice(s: string, i: nat, digits: string, name: string, rest: string)
    requires i <= |s| && s[i..] == digits + (name + rest) && name != ""
    ensures i + |digits| + |name| <= |s| && s[i..i + |digits|] == digits && s[i + |digits| + |name|..] == rest
    ensures s[i + |digits|..i + |digits| + |name|] == name && s[i + |digits|] == name[0]
  {
    var u := s[i..];
    TakeAndDrop(u, digits, name, rest);
    assert forall k: nat :: k < |u| ==> u[k] == s[i + k];
  }

  lemma PartAt(s: string, i: nat, j: nat, digits: string, name: string)
    requires i < j && j + |name| <= |s| < SIZE && IsName(name) && s[j] == name[0] && s[j..j + |name|] == name
    requires s[i..j] == digits && AllDigits(digits) && ValueOf(digits) == |name|
    ensures RoundAt(s, i) == Part(name, j + |name|)
  {
    RunEndIsUnique(s, i, j);
    assert IsDigit(s[i]) by {
      assert s[i] == digits[0] && digits[0] in digits;
    }
  }

  lemma SplitName(s: string, i: nat, name: string, rest: string) returns (j: nat)
    requires i <= |s| && IsName(name) && s[i..] == Decimal(|name|) + (name + rest)
    ensures i < j && j + |name| <= |s| && s[i..j] == Decimal(|name|)
    ensures s[j..j + |name|] == name && s[j] == name[0] && s[j + |name|..] == rest
  {
    DecimalRoundTrip(|name|);
    SplitTwice(s, i, Decimal(|name|), name, rest);
    j := i + |Decimal(|name|)|;
  }

  lemma OnePart(s: string, i: nat, name: string, rest: string) returns (next: nat)
    requires i <= |s| < SIZE && IsName(name) && s[i..] == Decimal(|name|) + (name + rest)
    ensures RoundAt(s, i) == Part(name, next) && next <= |s| && s[next..] == rest
  {
    var j := SplitName(s, i, name, rest);
    DecimalRoundTrip(|name|);
    PartAt(s, i, j, Decimal(|name|), name);
    next := j + |name|;
  }

  lemma NoNames(names: seq<string>, tail: string)
    requires names == []
    ensures Body(names) + tail == tail
  {
  }

  // The rounds from `i` to `j` are the names.
  predicate RoundsAre(s: string, i: nat, names: seq<string>, j: nat)
    requires i <= |s|
    decreases |names|
  {
    if names == [] then i == j
    else
      var round := RoundAt(s, i);
      round.Part? && round.name == names[0] && RoundsAre(s, round.next, names[1..], j)
  }

  lemma OneRound(s: string, i: nat, names: seq<string>, next: nat, j: nat)
    requires i <= |s| && names != [] && RoundAt(s, i) == Part(names[0], next) && RoundsAre(s, next, names[1..], j)
    ensures RoundsAre(s, i, names, j)
  {
  }

  // The names of the body are found one by one, up to what is behind them.
  lemma {:induction false} BodyRounds(s: string, i: nat, names: seq<string>, tail: string) returns (j: nat)
    requires i <= |s| < SIZE && s[i..] == Body(names) + tail && forall name <- names :: IsName(name)
    ensures j <= |s| && s[j..] == tail && RoundsAre(s, i, names, j)
    decreases |names|
  {
    if names == [] {
      NoNames(names, tail);
      j := i;
    } else {
      assert names[0] in names;
      var next := FirstPart(s, i, names, tail);
      j := BodyRounds(s, next, names[1..], tail);
      OneRound(s, i, names, next, j);
    }
  }

  lemma FirstRound(s: string, i: nat, names: seq<string>, j: nat) returns (next: nat)
    requires i <= |s| && names != [] && RoundsAre(s, i, names, j)
    ensures next <= |s| && RoundAt(s, i) == Part(names[0], next) && RoundsAre(s, next, names[1..], j)
  {
    next := RoundAt(s, i).next;
  }

  lemma FirstAppended(demangled: string, names: seq<string>)
    requires names != []
    ensures AllAppended(demangled, names) == AllAppended(Appended(demangled, names[0]), names[1..])
  {
  }

  lemma {:induction false} RoundsYield(
      s: string, i: nat, names: seq<string>, j: nat, demangled: string, n: nat, result: string)
    requires i <= |s| && j <= |s| && |names| <= n && RoundsAre(s, i, names, j)
    requires Yields(s, j, AllAppended(demangled, names), n - |names|, result)
    ensures Yields(s, i, demangled, n, result)
    decreases |names|
  {
    if names != [] {
      var next := FirstRound(s, i, names, j);
      FirstAppended(demangled, names);
      RoundsYield(s, next, names[1..], j, Appended(demangled, names[0]), n - 1, result);
      YieldsStep(s, i, demangled, n, names[0], next, result);
    }
  }

  lemma ParseBody(s: string, i: nat, names: seq<string>, tail: string, n: nat)
    requires i <= |s| < SIZE && s[i..] == Body(names) + tail && (tail != "" ==> !IsDigit(tail[0]))
    requires names != [] && (forall name <- names :: IsName(name)) && |names| <= n
    ensures Yields(s, i, "", n, Joined(names))
  {
    var j := BodyRounds(s, i, names, tail);
    NoPart(s, j, tail);
    AllAppendedIsJoined(names);
    StopAfter(s, i, names, j, n);
  }

  lemma StopAfter(s: string, i: nat, names: seq<string>, j: nat, n: nat)
    requires i <= |s| && j <= |s| && |names| <= n && RoundsAre(s, i, names, j) && !RoundAt(s, j).Part?
    ensures Yields(s, i, "", n, if RoundAt(s, j).Stop? then AllAppended("", names) else s)
  {
    YieldsStop(s, j, AllAppended("", names), n - |names|);
    RoundsYield(s, i, names, j, "", n, if RoundAt(s, j).Stop? then AllAppended("", names) else s);
  }

  lemma DigitsBefore(s: string, i: nat, d: string, rest: string) returns (j: nat)
    requires i <= |s| && s[i..] == d + rest && d != "" && (rest != "" ==> !IsDigit(rest[0]))
    ensures j == i + |d| && j + |rest| == |s| && s[i..j] == d && (j < |s| ==> !IsDigit(s[j])) && s[i] == d[0]
  {
    j := i + |d|;
    var u := s[i..];
    assert u[..|d|] == d && |u| == |d| + |rest|;
    assert s[i..j] == u[..|d|] && s[i] == u[0];
    assert j < |s| ==> s[j] == u[|d|] == rest[0];
  }

  // The number that is spelled before the rest reaches past the end.
  lemma RunsPast(s: string, i: nat, length: nat, rest: string)
    requires i <= |s| && s[i..] == Decimal(length) + rest && (rest != "" ==> !IsDigit(rest[0]))
    requires |rest| < length && |s| + length < SIZE
    ensures RoundAt(s, i) == TooLong
  {
    DecimalRoundTrip(length);
    var d := Decimal(length);
    var j := DigitsBefore(s, i, d, rest);
    RunEndIsUnique(s, i, j);
    assert s[i] == d[0] && d[0] in d;
  }

  function Truncated(names: seq<string>, length: nat, rest: string): string {
    "N" + (Body(names) + (Decimal(length) + rest))
  }

  lemma TruncatedFrom(names: seq<string>, length: nat, rest: string)
    ensures
      var s := Truncated(names, length, rest);
      s != "" && s[0] == 'N' && s[1..] == Body(names) + (Decimal(length) + rest)
  {
  }

  lemma TruncatedRounds(s: string, names: seq<string>, length: nat, rest: string) returns (j: nat)
    requires s != "" && s[1..] == Body(names) + (Decimal(length) + rest)
    requires (forall name <- names :: IsName(name)) && (rest != "" ==> !IsDigit(rest[0]))
    requires |rest| < length && |s| + length < SIZE
    ensures j <= |s| && RoundsAre(s, 1, names, j) && RoundAt(s, j) == TooLong
  {
    j := BodyRounds(s, 1, names, Decimal(length) + rest);
    RunsPast(s, j, length, rest);
  }

  lemma NamesFit(s: string, names: seq<string>, tail: string)
    requires s != "" && s[1..] == Body(names) + tail
    ensures |names| <= |s|
  {
    BodyIsLong(names);
  }

  // A name whose last length reaches past the end comes back as it is.
  lemma TooLongComesBack(names: seq<string>, length: nat, rest: string)
    requires (forall name <- names :: IsName(name)) && (rest != "" ==> !IsDigit(rest[0]))
    requires |rest| < length && |Truncated(names, length, rest)| + length < SIZE
    ensures ParsesTo(Truncated(names, length, rest), Truncated(names, length, rest))
  {
    TruncatedFrom(names, length, rest);
    ParseTruncated(Truncated(names, length, rest), names, length, rest);
  }

  lemma ParseTruncated(s: string, names: seq<string>, length: nat, rest: string)
    requires s != "" && s[0] == 'N' && s[1..] == Body(names) + (Decimal(length) + rest)
    requires (forall name <- names :: IsName(name)) && (rest != "" ==> !IsDigit(rest[0]))
    requires |rest| < length && |s| + length < SIZE
    ensures ParsesTo(s, s)
  {
    var j := TruncatedRounds(s, names, length, rest);
    NamesFit(s, names, Decimal(length) + rest);
    StopAtTheLast(s, names, j);
  }

  lemma StopAtTheLast(s: string, names: seq<string>, j: nat)
    requires s != "" && s[0] == 'N' && j <= |s| && |names| <= |s| && RoundsAre(s, 1, names, j)
    requires RoundAt(s, j) == TooLong
    ensures ParsesTo(s, s)
  {
    StopAfter(s, 1, names, j, |s| + 1);
  }

  lemma BodyHead(names: seq<string>, tail: string)
    requires names != []
    ensures Body(names) + tail == Decimal(|names[0]|) + (names[0] + (Body(names[1..]) + tail))
  {
    Regroup(Decimal(|names[0]|), names[0], Body(names[1..]), tail);
  }

  lemma Regroup(a: string, b: string, c: string, d: string)
    ensures ((a + b) + c) + d == a + (b + (c + d))
  {
  }

  lemma FirstPart(s: string, i: nat, names: seq<string>, tail: string) returns (next: nat)
    requires i <= |s| < SIZE && names != [] && IsName(names[0]) && s[i..] == Body(names) + tail
    ensures RoundAt(s, i) == Part(names[0], next) && next <= |s| && s[next..] == Body(names[1..]) + tail
  {
    BodyHead(names, tail);
    next := OnePart(s, i, names[0], Body(names[1..]) + tail);
  }

  lemma NoPart(s: string, i: nat, tail: string)
    requires i <= |s| && s[i..] == tail && (tail != "" ==> !IsDigit(tail[0]))
    ensures RoundAt(s, i) == Stop
  {
    assert i < |s| ==> s[i] == s[i..][0];
  }

  lemma {:induction false} BodyIsLong(names: seq<string>)
    ensures |names| <= |Body(names)|
  {
    if names != [] {
      BodyIsLong(names[1..]);
    }
  }

  lemma MangledFrom(body: string)
    ensures ("N" + body + "E")[0] == 'N' && ("N" + body + "E")[1..] == body + "E"
  {
    assert "N" + body + "E" == "N" + (body + "E");
  }

  lemma ParseNested(s: string, names: seq<string>)
    requires s != "" && s[0] == 'N' && s[1..] == Body(names) + "E" && |s| < SIZE
    requires names != [] && forall name <- names :: IsName(name)
    ensures ParsesTo(s, Joined(names))
  {
    BodyIsLong(names);
    ParseBody(s, 1, names, "E", |s| + 1);
  }

  // Names joined by "::" come back from their mangled form ...
  lemma DemangleInvertsNested(names: seq<string>)
    requires names != [] && (forall name <- names :: IsName(name)) && |Mangled(names)| < SIZE
    ensures ParsesTo(Mangled(names), Joined(names))
  {
    MangledFrom(Body(names));
    ParseNested(Mangled(names), names);
  }

  // ... and also without N and E.
  lemma DemangleInvertsSimple(names: seq<string>)
    requires names != [] && (forall name <- names :: IsName(name)) && |Body(names)| < SIZE
    ensures ParsesTo(Body(names), Joined(names))
  {
    BodyStarts(names);
    ParsePlain(Body(names), names);
  }

  lemma ParsePlain(s: string, names: seq<string>)
    requires s[0..] == Body(names) + "" && Start(s) == 0 && |s| < SIZE
    requires names != [] && forall name <- names :: IsName(name)
    ensures ParsesTo(s, Joined(names))
  {
    BodyIsLong(names);
    ParseBody(s, 0, names, "", |s| + 1);
  }

  lemma BodyStarts(names: seq<string>)
    requires names != []
    ensures Start(Body(names)) == 0 && Body(names)[0..] == Body(names) + ""
  {
    BodyHead(names, "");
    var s, d := Body(names), Decimal(|names[0]|);
    assert s == s + "" && s[0] == d[0] && d[0] in d;
  }
}
