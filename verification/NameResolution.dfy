// Looking a class up by name through nested scopes, aliases and bases, as find_class of
// tools/validate_reflection.py does.
module NameResolution {
  import opened Options

  datatype Scope = Scope(children: map<string, Scope>, usings: map<string, string>, inherit: Option<Scope>)

  predicate SeparatorAt(name: string, k: nat) {
    k + 1 < |name| && name[k] == ':' && name[k + 1] == ':'
  }

  // The text before and after the first "::".
  function Split(name: string): (r: Option<(string, string)>)
    ensures r.Some? ==> name == r.value.0 + "::" + r.value.1
  {
    if |name| < 2 then None
    else if name[..2] == "::" then Some(("", name[2..]))
    else match Split(name[1..])
      case None => None
      case Some((head, tail)) => Some(([name[0]] + head, tail))
  }

  lemma {:induction false} NoSeparatorBefore(name: string, k: nat)
    ensures var r := Split(name);
      (r.None? || k < |r.value.0|) ==> !SeparatorAt(name, k)
  {
    if |name| < 2 {
    } else if name[..2] == "::" {
    } else if k == 0 {
      assert name[..2] == [name[0], name[1]];
    } else {
      NoSeparatorBefore(name[1..], k - 1);
    }
  }

  /** A name is cut at its first "::", and not at all if and only if it has none. */
  lemma SplitExactly(name: string)
    ensures var r := Split(name);
      && (r.Some? ==> SeparatorAt(name, |r.value.0|) && forall k: nat :: k < |r.value.0| ==> !SeparatorAt(name, k))
      && (r.None? <==> forall k: nat :: !SeparatorAt(name, k))
  {
    var r := Split(name);
    forall k: nat ensures (r.None? || k < |r.value.0|) ==> !SeparatorAt(name, k) {
      NoSeparatorBefore(name, k);
    }
    if r.Some? {
      var (head, tail) := r.value;
      assert name[|head|] == "::"[0] && name[|head| + 1] == "::"[1];
      assert SeparatorAt(name, |head|);
    }
  }

  // find_class with at most that many nested calls; None when they run out.
  function Find(s: Scope, name: string, calls: nat): (r: Option<Option<Scope>>)
    decreases calls
  {
    if calls == 0 then None
    else match Split(name)
      case Some((head, tail)) =>
        if head in s.children then Find(s.children[head], tail, calls - 1)
        else if s.inherit.Some? && name in s.inherit.value.children then
          Find(s.inherit.value.children[name], tail, calls - 1)
        else Some(None)
      case None =>
        if name in s.children then Some(Some(s.children[name]))
        else if name in s.usings then Find(s, s.usings[name], calls - 1)
        else if s.inherit.Some? && name in s.inherit.value.children then
          Some(Some(s.inherit.value.children[name]))
        else Some(None)
  }

  // ---- What a name stands for ----

  predicate Alias(s: Scope, name: string) {
    Split(name).None? && name !in s.children && name in s.usings
  }

  // Where a chain of aliases ends, or None when it comes back to a name already seen.
  function Chase(s: Scope, name: string, seen: set<string>): (r: Option<string>)
    decreases s.usings.Keys - seen
  {
    if !Alias(s, name) then Some(name)
    else if name in seen then None
    else
      assert name in s.usings.Keys - seen;
      Chase(s, s.usings[name], seen + {name})
  }

  // A child first, then what an alias leads to, then a child of the base.
  function Meaning(s: Scope, name: string): (r: Option<Option<Scope>>)
    decreases s
  {
    match Chase(s, name, {})
    case None => None
    case Some(n) =>
      match Split(n)
      case Some((head, tail)) =>
        if head in s.children then Meaning(s.children[head], tail)
        else if s.inherit.Some? && n in s.inherit.value.children then Meaning(s.inherit.value.children[n], tail)
        else Some(None)
      case None =>
        if n in s.children then Some(Some(s.children[n]))
        else if s.inherit.Some? && n in s.inherit.value.children then Some(Some(s.inherit.value.children[n]))
        else Some(None)
  }

  // ---- The search finds what the name stands for ----

  // The chain of aliases from name ends after j steps.
  predicate EndsIn(s: Scope, name: string, j: nat)
    decreases j
  {
    if j == 0 then !Alias(s, name) else Alias(s, name) && EndsIn(s, s.usings[name], j - 1)
  }

  function End(s: Scope, name: string, j: nat): (n: string)
    requires EndsIn(s, name, j)
    decreases j
  {
    if j == 0 then name else End(s, s.usings[name], j - 1)
  }

  lemma {:induction false} FoundEnds(s: Scope, name: string, calls: nat) returns (j: nat)
    requires Find(s, name, calls).Some?
    ensures j < calls && EndsIn(s, name, j)
    decreases calls
  {
    hide Split;
    if Alias(s, name) {
      j := FoundEnds(s, s.usings[name], calls - 1);
      j := j + 1;
    } else {
      j := 0;
    }
  }

  lemma {:induction false} OneEnd(s: Scope, name: string, j: nat, k: nat)
    requires EndsIn(s, name, j) && EndsIn(s, name, k)
    ensures j == k
    decreases j
  {
    if j == 0 || k == 0 {
    } else {
      OneEnd(s, s.usings[name], j - 1, k - 1);
    }
  }

  // No name seen is as close to the end as j.
  ghost predicate Further(s: Scope, seen: set<string>, j: nat) {
    forall x, k: nat :: x in seen && EndsIn(s, x, k) ==> k > j
  }

  lemma {:induction false} ChaseReachesEnd(s: Scope, name: string, seen: set<string>, j: nat)
    requires EndsIn(s, name, j) && Further(s, seen, j)
    ensures Chase(s, name, seen) == Some(End(s, name, j))
    decreases j
  {
    hide Split;
    if j == 0 {
    } else {
      forall x, k: nat | x in seen + {name} && EndsIn(s, x, k) ensures k > j - 1 {
        if x == name { OneEnd(s, name, j, k); }
      }
      ChaseReachesEnd(s, s.usings[name], seen + {name}, j - 1);
    }
  }

  // Following aliases costs one call each.
  lemma {:induction false} ChaseIsFound(s: Scope, name: string, seen: set<string>) returns (j: nat)
    requires Chase(s, name, seen).Some?
    ensures !Alias(s, Chase(s, name, seen).value)
    ensures EndsIn(s, name, j) && End(s, name, j) == Chase(s, name, seen).value
    decreases s.usings.Keys - seen
  {
    hide Split;
    if Alias(s, name) {
      assert name in s.usings.Keys - seen;
      j := ChaseIsFound(s, s.usings[name], seen + {name});
      j := j + 1;
    } else {
      j := 0;
    }
  }

  lemma {:induction false} FindAtEnd(s: Scope, name: string, j: nat, calls: nat)
    requires EndsIn(s, name, j)
    ensures calls > 0 ==> Find(s, name, calls + j) == Find(s, End(s, name, j), calls)
    decreases j
  {
    hide Split;
    if j == 0 {
    } else {
      FindAtEnd(s, s.usings[name], j - 1, calls);
    }
  }

  /** Any search that ends gives what the name stands for. */
  lemma {:induction false} FindIsMeaning(s: Scope, name: string, calls: nat)
    requires Find(s, name, calls).Some?
    ensures Meaning(s, name) == Find(s, name, calls)
    decreases calls
  {
    hide Split, Chase, Alias;
    var j := FoundEnds(s, name, calls);
    ChaseReachesEnd(s, name, {}, j);
    var n := End(s, name, j);
    FindAtEnd(s, name, j, calls - j);
    EndIsNoAlias(s, name, j);
    match Split(n) {
      case Some((head, tail)) =>
        if head in s.children {
          FindIsMeaning(s.children[head], tail, calls - j - 1);
        } else if s.inherit.Some? && n in s.inherit.value.children {
          FindIsMeaning(s.inherit.value.children[n], tail, calls - j - 1);
        }
      case None => PlainFind(s, n, calls - j);
    }
  }

  lemma {:induction false} EndIsNoAlias(s: Scope, name: string, j: nat)
    requires EndsIn(s, name, j)
    ensures !Alias(s, End(s, name, j))
    decreases j
  {
    if j == 0 {
    } else {
      EndIsNoAlias(s, s.usings[name], j - 1);
    }
  }

  lemma PlainFind(s: Scope, n: string, calls: nat)
    requires Split(n).None? && !Alias(s, n) && calls > 0
    ensures Find(s, n, calls) ==
      if n in s.children then Some(Some(s.children[n]))
      else if s.inherit.Some? && n in s.inherit.value.children then Some(Some(s.inherit.value.children[n]))
      else Some(None)
  {
  }

  /** Where a name stands for something, some depth of calls finds it. */
  lemma {:induction false} MeaningIsFound(s: Scope, name: string) returns (calls: nat)
    requires Meaning(s, name).Some?
    ensures Find(s, name, calls) == Meaning(s, name)
    decreases s
  {
    hide Split, Chase, Alias;
    var j := ChaseIsFound(s, name, {});
    var n := End(s, name, j);
    var c := 0;
    match Split(n) {
      case Some((head, tail)) =>
        if head in s.children {
          c := MeaningIsFound(s.children[head], tail);
        } else if s.inherit.Some? && n in s.inherit.value.children {
          c := MeaningIsFound(s.inherit.value.children[n], tail);
        }
      case None => PlainFind(s, n, c + 1);
    }
    FindAtEnd(s, name, j, c + 1);
    calls := c + 1 + j;
  }

  /** The search ends if and only if no chain of aliases on its way comes back to itself. */
  lemma SearchEndsExactly(s: Scope, name: string)
    ensures (exists calls :: Find(s, name, calls).Some?) <==> Meaning(s, name).Some?
  {
    if calls :| Find(s, name, calls).Some? { FindIsMeaning(s, name, calls); }
    if Meaning(s, name).Some? { var calls := MeaningIsFound(s, name); }
  }

  ghost predicate Acyclic(s: Scope)
    decreases s
  {
    && (forall n :: Chase(s, n, {}).Some?)
    && (forall c :: c in s.children ==> Acyclic(s.children[c]))
    && (s.inherit.Some? ==> forall c :: c in s.inherit.value.children ==> Acyclic(s.inherit.value.children[c]))
  }

  /** Where no scope has aliases in a circle, every search ends. */
  lemma {:induction false} AcyclicEnds(s: Scope, name: string)
    requires Acyclic(s)
    ensures exists calls :: Find(s, name, calls).Some?
    decreases s
  {
    hide Chase, Split;
    var n := Chase(s, name, {}).value;
    match Split(n) {
      case Some((head, tail)) =>
        if head in s.children {
          AcyclicEnds(s.children[head], tail);
          SearchEndsExactly(s.children[head], tail);
        } else if s.inherit.Some? && n in s.inherit.value.children {
          AcyclicEnds(s.inherit.value.children[n], tail);
          SearchEndsExactly(s.inherit.value.children[n], tail);
        }
      case None =>
    }
    SearchEndsExactly(s, name);
  }

  // ---- Names of plain parts ----

  // The parts with "::" between them.
  function Joined(parts: seq<string>): (name: string)
    requires parts != []
  {
    if |parts| == 1 then parts[0] else parts[0] + "::" + Joined(parts[1..])
  }

  predicate Plain(parts: seq<string>) {
    forall i :: 0 <= i < |parts| ==> ':' !in parts[i]
  }

  // The scope reached by following children part by part.
  function Walk(s: Scope, parts: seq<string>): (r: Option<Scope>) {
    if parts == [] then Some(s)
    else if parts[0] !in s.children then None
    else Walk(s.children[parts[0]], parts[1..])
  }

  lemma PlainIsWhole(name: string)
    requires ':' !in name
    ensures Split(name).None?
  {
    hide Split;
    SplitExactly(name);
  }

  lemma CutAfter(part: string, rest: string)
    requires ':' !in part
    ensures Split(part + "::" + rest) == Some((part, rest))
  {
    hide Split;
    var name := part + "::" + rest;
    SplitExactly(name);
    var n := |part|;
    assert forall k :: 0 <= k < n ==> name[k] == part[k];
    assert SeparatorAt(name, n);
    var (head, tail) := Split(name).value;
    assert |head| == n;
    assert head == name[..n] == part && tail == name[n + 2..] == rest;
  }

  lemma JoinedSplits(parts: seq<string>)
    requires parts != [] && Plain(parts)
    ensures Split(Joined(parts)) == if |parts| == 1 then None else Some((parts[0], Joined(parts[1..])))
  {
    hide Split;
    if |parts| == 1 {
      PlainIsWhole(parts[0]);
    } else {
      CutAfter(parts[0], Joined(parts[1..]));
    }
  }

  /** A name of any number of plain parts finds the scope reached by following children. */
  lemma {:induction false} PartsAreFollowed(s: Scope, parts: seq<string>)
    requires parts != [] && Plain(parts) && Walk(s, parts).Some?
    ensures Find(s, Joined(parts), |parts|) == Some(Walk(s, parts))
    decreases |parts|
  {
    hide Split;
    JoinedSplits(parts);
    if |parts| == 1 {
      assert parts[1..] == [];
    } else {
      PartsAreFollowed(s.children[parts[0]], parts[1..]);
    }
  }

  /** A plain name is a child, or else an alias, or else a child of the base, in this order. */
  lemma PlainNameExactly(s: Scope, name: string, calls: nat)
    requires ':' !in name && calls > 0
    ensures name in s.children ==> Find(s, name, calls) == Some(Some(s.children[name]))
    ensures name !in s.children && name in s.usings ==> Find(s, name, calls) == Find(s, s.usings[name], calls - 1)
    ensures name !in s.children && name !in s.usings && s.inherit.Some? && name in s.inherit.value.children ==>
      Find(s, name, calls) == Some(Some(s.inherit.value.children[name]))
    ensures name !in s.children && name !in s.usings && (s.inherit.Some? ==> name !in s.inherit.value.children) ==>
      Find(s, name, calls) == Some(None)
  {
    PlainIsWhole(name);
  }

  /** Names read from a text have no "::" in them, so a qualified name is never found
      through the base: the script looks its whole text up among the base's children. */
  lemma QualifiedSkipsBase(s: Scope, name: string, calls: nat)
    requires calls > 0 && Split(name).Some? && Split(name).value.0 !in s.children
    requires s.inherit.Some? ==> forall c :: c in s.inherit.value.children ==> Split(c).None?
    ensures Find(s, name, calls) == Some(None)
  {
  }

  /** A class that inherits from one with a nested a::b does not find a::b; its base does. */
  lemma NestedInBaseIsMissed()
    ensures var empty := Scope(map[], map[], None);
      var base := Scope(map["a" := Scope(map["b" := empty], map[], None)], map[], None);
      && Find(base, "a::b", 2) == Some(Some(empty))
      && forall calls: nat :: calls > 0 ==> Find(Scope(map[], map[], Some(base)), "a::b", calls) == Some(None)
  {
    var empty := Scope(map[], map[], None);
    var inner := Scope(map["b" := empty], map[], None);
    var base := Scope(map["a" := inner], map[], None);
    var name := "a::b";
    assert name[1..][..2] == "::" && name[1..][2..] == "b";
    assert Split(name[1..]) == Some(("", "b"));
    assert name[..2][0] == 'a' && "::"[0] == ':' && [name[0]] + "" == "a";
    assert Split(name) == Some(("a", "b"));
    assert Split("b") == None && Split("a") == None;
    assert Find(inner, "b", 1) == Some(Some(empty));
    forall calls: nat | calls > 0 ensures Find(Scope(map[], map[], Some(base)), name, calls) == Some(None) {
      QualifiedSkipsBase(Scope(map[], map[], Some(base)), name, calls);
    }
  }
}
