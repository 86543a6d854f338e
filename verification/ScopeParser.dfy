// Finding the brace scopes of a C++ text, as EmptyScope and ClassStruct of
// tools/validate_reflection.py read them, initializer heuristic included.
module ScopeParser {
  import opened Options

  // named: a class, struct, enum or namespace; the others are plain brace blocks.
  datatype Tree = Tree(start: nat, end: nat, named: bool, children: seq<Tree>)

  // str.find of one character: -1 when the range has none.
  function Find(s: string, c: char, from: nat, upto: int): (i: int)
    requires upto <= |s|
    ensures -1 <= i < upto || i == -1
    ensures i >= 0 ==> from <= i && s[i] == c
    ensures forall k :: from <= k < upto && (i == -1 || k < i) ==> s[k] != c
    decreases upto - from
  {
    if from >= upto then -1
    else if s[from] == c then from
    else Find(s, c, from + 1, upto)
  }

  predicate Blank(c: char) {
    c in {' ', '\t', '\n', '\r', '\U{00000B}', '\U{00000C}'}
  }

  function SkipBlanks(s: string, from: nat): (i: nat)
    requires from <= |s|
    ensures from <= i <= |s|
    decreases |s| - from
  {
    if from < |s| && Blank(s[from]) then SkipBlanks(s, from + 1) else from
  }

  // The first semicolon or closing brace.
  function BodyEnd(s: string, from: nat): (i: nat)
    requires from <= |s|
    ensures from <= i <= |s|
    decreases |s| - from
  {
    if from < |s| && s[from] != ';' && s[from] != '}' then BodyEnd(s, from + 1) else from
  }

  // One past a brace initializer "{...} ;" that opens at i, or -1 when none does.
  function InitializerEnd(s: string, i: nat): (e: int)
    requires i < |s|
    ensures e == -1 || (s[i] == '{' && i < e <= |s|)
  {
    if s[i] != '{' then -1
    else
      var j := BodyEnd(s, i + 1);
      if j == |s| || s[j] == ';' then -1
      else
        var k := SkipBlanks(s, j + 1);
        if k < |s| && s[k] == ';' then k + 1 else -1
  }

  function FirstInitializer(s: string, from: nat): (i: int)
    ensures i == -1 || (from <= i < |s| && InitializerEnd(s, i) != -1)
    decreases |s| - from
  {
    if from >= |s| then -1
    else if InitializerEnd(s, from) != -1 then from
    else FirstInitializer(s, from + 1)
  }

  // find_possible_end: the next closing brace, or one beyond the next initializer when
  // that brace belongs to it. The search resumes one character late, as in the script.
  function PossibleEnd(s: string, current: nat): (e: int)
    ensures -1 <= e < |s|
  {
    var p := Find(s, '}', current, |s|);
    var a := FirstInitializer(s, current);
    if a != -1 && a < p < InitializerEnd(s, a) then Find(s, '}', InitializerEnd(s, a) + 1, |s|) else p
  }

  // The text from i up to e is "{...} ;" with no semicolon or closing brace between the braces
  // and only blanks before the semicolon; j and k are the closing brace and the semicolon.
  predicate IsInitializer(s: string, i: nat, j: nat, k: nat) {
    && i < j < k < |s| && s[i] == '{' && s[j] == '}' && s[k] == ';'
    && (forall x :: i < x < j ==> s[x] != ';' && s[x] != '}')
    && (forall x :: j < x < k ==> Blank(s[x]))
  }

  lemma {:induction false} BodyEndIs(s: string, from: nat, j: nat)
    requires from <= j < |s| && s[j] in ";}" && forall x :: from <= x < j ==> s[x] != ';' && s[x] != '}'
    ensures BodyEnd(s, from) == j
    decreases |s| - from
  {
    if from == j {
    } else {
      BodyEndIs(s, from + 1, j);
    }
  }

  lemma {:induction false} BodyEndStops(s: string, from: nat)
    requires from <= |s|
    ensures var j := BodyEnd(s, from);
      (j < |s| ==> s[j] in ";}") && forall x :: from <= x < j ==> s[x] != ';' && s[x] != '}'
    decreases |s| - from
  {
    if from < |s| && s[from] != ';' && s[from] != '}' {
      BodyEndStops(s, from + 1);
    }
  }

  lemma {:induction false} SkipBlanksIs(s: string, from: nat, k: nat)
    requires from <= k < |s| && !Blank(s[k]) && forall x :: from <= x < k ==> Blank(s[x])
    ensures SkipBlanks(s, from) == k
    decreases |s| - from
  {
    if from == k {
    } else {
      SkipBlanksIs(s, from + 1, k);
    }
  }

  lemma {:induction false} SkipBlanksStops(s: string, from: nat)
    requires from <= |s|
    ensures forall x :: from <= x < SkipBlanks(s, from) ==> Blank(s[x])
    decreases |s| - from
  {
    if from < |s| && Blank(s[from]) {
      SkipBlanksStops(s, from + 1);
    }
  }

  lemma InitializerIsFound(s: string, i: nat, j: nat, k: nat)
    requires IsInitializer(s, i, j, k)
    ensures i < |s| && InitializerEnd(s, i) == k + 1
  {
    hide BodyEnd, SkipBlanks;
    BodyEndIs(s, i + 1, j);
    SkipBlanksIs(s, j + 1, k);
  }

  lemma FoundIsInitializer(s: string, i: nat) returns (j: nat, k: nat)
    requires i < |s| && InitializerEnd(s, i) != -1
    ensures IsInitializer(s, i, j, k) && InitializerEnd(s, i) == k + 1
  {
    hide BodyEnd, SkipBlanks;
    BodyEndStops(s, i + 1);
    j := BodyEnd(s, i + 1);
    SkipBlanksStops(s, j + 1);
    k := InitializerEnd(s, i) - 1;
  }

  lemma {:induction false} FirstInitializerIsFirst(s: string, from: nat)
    ensures var a := FirstInitializer(s, from);
      forall i :: from <= i < |s| && (a == -1 || i < a) ==> InitializerEnd(s, i) == -1
    decreases |s| - from
  {
    hide InitializerEnd;
    if from < |s| && InitializerEnd(s, from) == -1 {
      FirstInitializerIsFirst(s, from + 1);
    }
  }

  // An initializer opens at a, and none before.
  ghost predicate FirstIs(s: string, current: nat, a: nat, j: nat, k: nat) {
    && current <= a && IsInitializer(s, a, j, k)
    && forall i: nat, x: nat, y: nat :: current <= i < a ==> !IsInitializer(s, i, x, y)
  }

  /** The bound of the scan is the next closing brace, or, where that lies in the first
      initializer, the next one from a character after it. */
  lemma PossibleEndSkips(s: string, current: nat, a: nat, j: nat, k: nat)
    requires FirstIs(s, current, a, j, k)
    ensures var p := Find(s, '}', current, |s|);
      PossibleEnd(s, current) == if a < p <= k then Find(s, '}', k + 2, |s|) else p
  {
    hide InitializerEnd, IsInitializer;
    FirstInitializerIsFirst(s, current);
    InitializerIsFound(s, a, j, k);
    var f := FirstInitializer(s, current);
    if f < a { var x, y := FoundIsInitializer(s, f); }
  }

  /** Without an initializer it is the next closing brace. */
  lemma PossibleEndPlain(s: string, current: nat)
    requires forall i: nat, x: nat, y: nat :: current <= i ==> !IsInitializer(s, i, x, y)
    ensures PossibleEnd(s, current) == Find(s, '}', current, |s|)
  {
    hide InitializerEnd, IsInitializer;
    var f := FirstInitializer(s, current);
    if f != -1 { var x, y := FoundIsInitializer(s, f); }
  }

  // A negative end of a Python slice counts from the back.
  function SliceEnd(s: string, end: int): (e: int)
    requires -1 <= end <= |s|
    ensures -1 <= e <= |s|
  {
    if end == -1 then |s| - 1 else end
  }

  // Where the next scope opens, or -1 when the script looks for no more.
  function NextOpen(s: string, current: nat): (q: int)
    ensures q == -1 || current <= q < |s|
  {
    Find(s, '{', current, SliceEnd(s, PossibleEnd(s, current)))
  }

  // No closing brace hides before the next scope, and where no scope is found the next
  // brace is a closing one: the heuristic only ever moves the bound past an opening brace.
  lemma HeuristicIsHarmless(s: string, current: nat)
    ensures var q := NextOpen(s, current);
      if q != -1 then s[q] == '{' && NoBraces(s, current, q)
      else forall e :: current <= e < |s| && s[e] == '}' && NoClose(s, current, e) ==> NoBraces(s, current, e)
  {
    var p := Find(s, '}', current, |s|);
    var a := FirstInitializer(s, current);
    var q := NextOpen(s, current);
    if a != -1 && a < p < InitializerEnd(s, a) {
      assert q != -1 && q <= a;
    }
  }

  predicate NoClose(s: string, from: nat, upto: nat)
    requires upto <= |s|
  {
    forall k :: from <= k < upto ==> s[k] != '}'
  }

  predicate NoBraces(s: string, from: nat, upto: nat) {
    upto <= |s| && forall k :: from <= k < upto ==> s[k] != '{' && s[k] != '}'
  }

  // ---- Brace matching ----

  // Opening braces less closing ones.
  function Balance(s: string, from: nat, upto: nat): (b: int)
    requires from <= upto <= |s|
    decreases upto - from
  {
    if from == upto then 0
    else Balance(s, from, upto - 1) + (if s[upto - 1] == '{' then 1 else if s[upto - 1] == '}' then -1 else 0)
  }

  predicate Matches(s: string, start: nat, end: nat) {
    && start < end < |s| && s[start] == '{'
    && (forall k :: start < k <= end ==> Balance(s, start, k) > 0)
    && Balance(s, start, end + 1) == 0
  }

  lemma {:induction false} BalanceSplit(s: string, a: nat, b: nat, c: nat)
    requires a <= b <= c <= |s|
    ensures Balance(s, a, c) == Balance(s, a, b) + Balance(s, b, c)
    decreases c - b
  {
    if b == c {
    } else {
      BalanceSplit(s, a, b, c - 1);
    }
  }

  lemma {:induction false} FlatBalance(s: string, a: nat, b: nat)
    requires a <= b <= |s| && NoBraces(s, a, b)
    ensures Balance(s, a, b) == 0
    decreases b - a
  {
    if a == b {
    } else {
      FlatBalance(s, a, b - 1);
    }
  }

  // The first place where the balance counted from q returns to zero.
  lemma {:induction false} FirstReturn(s: string, q: nat, k: nat, upto: nat) returns (m: nat)
    requires q < k <= upto <= |s| && s[q] == '{'
    requires forall j :: q < j <= k ==> Balance(s, q, j) > 0
    requires Balance(s, q, upto) <= 0
    ensures m < upto && Matches(s, q, m)
    decreases upto - k
  {
    if k == upto { assert false; }
    if Balance(s, q, k + 1) == 0 {
      m := k;
    } else {
      m := FirstReturn(s, q, k + 1, upto);
    }
  }

  lemma InnerMatches(s: string, start: nat, end: nat, q: nat) returns (m: nat)
    requires Matches(s, start, end) && start < q < end && s[q] == '{'
    ensures m < end && Matches(s, q, m)
  {
    BalanceSplit(s, start, q, end + 1);
    assert Balance(s, q, q + 1) == 1;
    m := FirstReturn(s, q, q + 1, end + 1);
    assert Balance(s, q, end + 1) < 0;
  }

  // ---- The tree of scopes ----

  function Resume(from: nat, cs: seq<Tree>, i: nat): (at: nat)
    requires i <= |cs|
  {
    if i == 0 then from else cs[i - 1].end + 1
  }

  // The children stand in order between from and to, and no brace lies outside them.
  predicate Tiles(s: string, from: nat, upto: nat, cs: seq<Tree>)
    decreases cs
  {
    && (forall i :: 0 <= i < |cs| ==>
          && Resume(from, cs, i) <= cs[i].start
          && WellNested(s, cs[i])
          && NoBraces(s, Resume(from, cs, i), cs[i].start))
    && Resume(from, cs, |cs|) <= upto
    && NoBraces(s, Resume(from, cs, |cs|), upto)
  }

  predicate WellNested(s: string, t: Tree)
    decreases t
  {
    && t.start < t.end < |s| && s[t.start] == '{' && s[t.end] == '}'
    && Tiles(s, t.start + 1, t.end, t.children)
  }

  // Inside a plain block nothing is taken for a class.
  predicate Anonymous(t: Tree) {
    !t.named && forall i :: 0 <= i < |t.children| ==> Anonymous(t.children[i])
  }

  // The class pattern, as far as the scan relies on it: the brace that ends its match.
  ghost predicate Pattern(s: string, brace: (nat, int) -> int) {
    forall from: nat, upto: int :: var b := brace(from, upto);
      b == -1 || (from <= b < upto && b < |s| && s[b] == '{')
  }

  // Inside a named scope a child is named if and only if the pattern, asked where the scan
  // resumed with its bound there, gives the child's own brace.
  predicate FoundAt(s: string, brace: (nat, int) -> int, at: nat, named: bool, c: Tree) {
    c.named <==> named && brace(at, SliceEnd(s, PossibleEnd(s, at))) == c.start
  }

  predicate NamedIn(s: string, brace: (nat, int) -> int, from: nat, named: bool, cs: seq<Tree>)
    decreases cs
  {
    forall i :: 0 <= i < |cs| ==> FoundAt(s, brace, Resume(from, cs, i), named, cs[i]) && WellNamed(s, brace, cs[i])
  }

  predicate WellNamed(s: string, brace: (nat, int) -> int, t: Tree)
    decreases t
  {
    NamedIn(s, brace, t.start + 1, t.named, t.children)
  }

  lemma NamedPast(s: string, brace: (nat, int) -> int, from: nat, named: bool, cs: seq<Tree>, c: Tree)
    requires NamedIn(s, brace, from, named, cs) && WellNamed(s, brace, c)
    requires FoundAt(s, brace, Resume(from, cs, |cs|), named, c)
    ensures NamedIn(s, brace, from, named, cs + [c])
  {
    hide FoundAt, WellNamed, Resume;
    var ds := cs + [c];
    forall i | 0 <= i < |ds|
      ensures FoundAt(s, brace, Resume(from, ds, i), named, ds[i]) && WellNamed(s, brace, ds[i])
    {
      ResumesPast(from, cs, c, i);
      if i < |cs| { assert ds[i] == cs[i]; }
    }
  }

  // EmptyScope.read, and ClassStruct.next_scope when the scope is named.
  method Read(s: string, brace: (nat, int) -> int, start: nat, named: bool) returns (r: Option<Tree>)
    requires start < |s| && s[start] == '{' && Pattern(s, brace)
    ensures r.Some? ==> r.value.start == start && r.value.named == named
    ensures r.Some? ==> WellNested(s, r.value) && Matches(s, start, r.value.end)
    ensures r.Some? ==> WellNamed(s, brace, r.value)
    ensures r.Some? && !named ==> Anonymous(r.value)
    ensures r.None? ==> forall m :: !Matches(s, start, m)
    decreases |s| - start
  {
    hide WellNested, Balance, PossibleEnd, Tiles, Matches, Open, InitializerEnd, FirstInitializer, NamedIn, WellNamed;
    Begins(s, start);
    NoneNamed(s, brace, start + 1, named);
    var current, children: seq<Tree> := start + 1, [];
    while current < |s| - 1
      invariant start < current <= |s|
      invariant Open(s, start, current) && Tiles(s, start + 1, current, children)
      invariant Resume(start + 1, children, |children|) == current
      invariant NamedIn(s, brace, start + 1, named, children)
      invariant !named ==> forall i :: 0 <= i < |children| ==> Anonymous(children[i])
    {
      var end := SliceEnd(s, PossibleEnd(s, current));
      var q := Find(s, '{', current, end);
      if q == -1 { break; }
      HeuristicIsHarmless(s, current);
      var isClass := named && brace(current, end) == q;
      var child := Read(s, brace, q, isClass);
      if child.None? {
        forall m ensures !Matches(s, start, m) {
          if Matches(s, start, m) { UnclosedChild(s, start, current, q, m); }
        }
        return None;
      }
      ReachesPast(s, start, current, child.value);
      TilesPast(s, start + 1, current, children, child.value);
      NamedPast(s, brace, start + 1, named, children, child.value);
      children := children + [child.value];
      current := child.value.end + 1;
    }
    var e := Find(s, '}', current, |s|);
    if e == -1 {
      forall m ensures !Matches(s, start, m) {
        if Matches(s, start, m) { ClosesBeyond(s, start, current, m); }
      }
      return None;
    }
    HeuristicIsHarmless(s, current);
    Closes(s, start, current, e);
    Wraps(s, start, current, e, named, children);
    r := Some(Tree(start, e, named, children));
    NamesAs(s, brace, r.value);
  }

  lemma NoneNamed(s: string, brace: (nat, int) -> int, from: nat, named: bool)
    ensures NamedIn(s, brace, from, named, [])
  {
  }

  lemma NamesAs(s: string, brace: (nat, int) -> int, t: Tree)
    ensures WellNamed(s, brace, t) <==> NamedIn(s, brace, t.start + 1, t.named, t.children)
  {
    hide NamedIn;
  }

  // Every prefix from start is open, and exactly one level deep at current.
  predicate Open(s: string, start: nat, current: nat) {
    && start < current <= |s| && s[start] == '{'
    && Balance(s, start, current) == 1
    && forall k :: start < k <= current ==> Balance(s, start, k) > 0
  }

  lemma Begins(s: string, start: nat)
    requires start < |s| && s[start] == '{'
    ensures Open(s, start, start + 1) && Tiles(s, start + 1, start + 1, [])
  {
    assert Balance(s, start, start + 1) == 1;
  }

  lemma Wraps(s: string, start: nat, current: nat, e: nat, named: bool, cs: seq<Tree>)
    requires start < current <= e < |s| && s[start] == '{' && s[e] == '}' && NoBraces(s, current, e)
    requires Tiles(s, start + 1, current, cs) && Resume(start + 1, cs, |cs|) == current
    ensures WellNested(s, Tree(start, e, named, cs))
  {
    hide WellNested;
    assert Tiles(s, start + 1, e, cs);
    NestsAs(s, Tree(start, e, named, cs));
  }

  lemma NestsAs(s: string, t: Tree)
    ensures WellNested(s, t) <==> t.start < t.end < |s| && s[t.start] == '{' && s[t.end] == '}'
                                  && Tiles(s, t.start + 1, t.end, t.children)
  {
    hide Tiles;
  }

  lemma ClosesBeyond(s: string, start: nat, current: nat, m: nat)
    requires Open(s, start, current) && Matches(s, start, m)
    ensures current <= m < |s| && s[m] == '}'
  {
    assert Balance(s, start, m) > 0;
  }

  lemma UnclosedChild(s: string, start: nat, current: nat, q: nat, m: nat)
    requires Open(s, start, current) && current <= q < |s| && s[q] == '{' && NoBraces(s, current, q)
    requires Matches(s, start, m)
    ensures exists n :: Matches(s, q, n)
  {
    ClosesBeyond(s, start, current, m);
    var n := InnerMatches(s, start, m, q);
  }

  // Skipping a complete child that follows plain text leaves the scope one level open.
  lemma ReachesPast(s: string, start: nat, current: nat, c: Tree)
    requires Open(s, start, current) && current <= c.start && Matches(s, c.start, c.end)
    requires NoBraces(s, current, c.start)
    ensures current <= c.start < c.end < |s| && Open(s, start, c.end + 1)
  {
    forall k | start < k <= c.end + 1
      ensures Balance(s, start, k) > 0 && (k == c.end + 1 ==> Balance(s, start, k) == 1)
    {
      if current < k <= c.start {
        BalanceSplit(s, start, current, k);
        FlatBalance(s, current, k);
      } else if c.start < k {
        BalanceSplit(s, start, current, k);
        BalanceSplit(s, current, c.start, k);
        FlatBalance(s, current, c.start);
      }
    }
  }

  lemma ResumesPast(from: nat, cs: seq<Tree>, c: Tree, i: nat)
    requires i <= |cs|
    ensures Resume(from, cs + [c], i) == Resume(from, cs, i) && Resume(from, cs + [c], |cs| + 1) == c.end + 1
  {
  }

  lemma TilesPast(s: string, from: nat, current: nat, cs: seq<Tree>, c: Tree)
    requires current <= |s| && Tiles(s, from, current, cs) && Resume(from, cs, |cs|) == current
    requires current <= c.start < c.end < |s| && WellNested(s, c) && NoBraces(s, current, c.start)
    ensures Tiles(s, from, c.end + 1, cs + [c]) && Resume(from, cs + [c], |cs| + 1) == c.end + 1
  {
    hide WellNested, Resume, NoBraces;
    var ds := cs + [c];
    ResumesPast(from, cs, c, |cs|);
    forall i | 0 <= i < |ds|
      ensures Resume(from, ds, i) <= ds[i].start && WellNested(s, ds[i])
      ensures NoBraces(s, Resume(from, ds, i), ds[i].start)
    {
      ResumesPast(from, cs, c, i);
      if i < |cs| { assert ds[i] == cs[i]; }
    }
    NothingBetween(s, c.end + 1);
  }

  lemma NothingBetween(s: string, k: nat)
    requires k <= |s|
    ensures NoBraces(s, k, k)
  {
  }

  lemma Closes(s: string, start: nat, current: nat, e: nat)
    requires Open(s, start, current) && current <= e < |s| && s[e] == '}' && NoBraces(s, current, e)
    ensures Matches(s, start, e)
  {
    forall k | current < k <= e ensures Balance(s, start, k) == 1 {
      BalanceSplit(s, start, current, k);
      FlatBalance(s, current, k);
    }
  }

  // ---- The tree is the only one ----

  predicate SameBraces(t: Tree, u: Tree)
    decreases t
  {
    && t.start == u.start && t.end == u.end && |t.children| == |u.children|
    && forall i :: 0 <= i < |t.children| ==> SameBraces(t.children[i], u.children[i])
  }

  // The next brace of a scope after its first i children: where child i opens, or its end.
  function NextBrace(t: Tree, i: nat): (at: nat)
    requires i <= |t.children|
  {
    if i < |t.children| then t.children[i].start else t.end
  }

  lemma NextBraceIsFirst(s: string, t: Tree, i: nat)
    requires WellNested(s, t) && i <= |t.children|
    ensures var from, at := Resume(t.start + 1, t.children, i), NextBrace(t, i);
      from <= at < |s| && NoBraces(s, from, at) && s[at] == (if i < |t.children| then '{' else '}')
    ensures i < |t.children| ==> WellNested(s, t.children[i])
  {
    hide WellNested;
    NestsAs(s, t);
    if i < |t.children| { NestsAs(s, t.children[i]); }
  }

  lemma FirstBrace(s: string, from: nat, a: nat, b: nat)
    requires from <= a < |s| && from <= b < |s| && NoBraces(s, from, a) && NoBraces(s, from, b)
    requires s[a] in "{}" && s[b] in "{}"
    ensures a == b
  {
  }

  lemma NextBracesAgree(s: string, t: Tree, u: Tree, i: nat)
    requires WellNested(s, t) && WellNested(s, u) && i <= |t.children| && i <= |u.children|
    requires Resume(t.start + 1, t.children, i) == Resume(u.start + 1, u.children, i)
    ensures NextBrace(t, i) == NextBrace(u, i) && (i < |t.children| <==> i < |u.children|)
    ensures i < |t.children| ==> WellNested(s, t.children[i]) && WellNested(s, u.children[i])
  {
    hide WellNested, NoBraces;
    NextBraceIsFirst(s, t, i);
    NextBraceIsFirst(s, u, i);
    FirstBrace(s, Resume(t.start + 1, t.children, i), NextBrace(t, i), NextBrace(u, i));
  }

  /** Two well-nested trees that open at the same brace have the same scopes throughout, so
      the scopes found depend on the braces alone. */
  lemma {:induction false} OnlyOneNesting(s: string, t: Tree, u: Tree)
    requires WellNested(s, t) && WellNested(s, u) && t.start == u.start
    ensures SameBraces(t, u)
    decreases t
  {
    hide WellNested, SameBraces;
    var i := 0;
    NextBracesAgree(s, t, u, 0);
    while i < |t.children|
      invariant i <= |t.children| && i <= |u.children|
      invariant Resume(t.start + 1, t.children, i) == Resume(u.start + 1, u.children, i)
      invariant i < |t.children| <==> i < |u.children|
      invariant forall k :: 0 <= k < i ==> SameBraces(t.children[k], u.children[k])
    {
      NextBracesAgree(s, t, u, i);
      OnlyOneNesting(s, t.children[i], u.children[i]);
      SameEnds(t.children[i], u.children[i]);
      i := i + 1;
      NextBracesAgree(s, t, u, i);
    }
    NextBracesAgree(s, t, u, i);
    SameFrom(t, u);
  }

  lemma SameEnds(t: Tree, u: Tree)
    requires SameBraces(t, u)
    ensures t.end == u.end
  {
  }

  lemma SameFrom(t: Tree, u: Tree)
    requires t.start == u.start && t.end == u.end && |t.children| == |u.children|
    requires forall i :: 0 <= i < |t.children| ==> SameBraces(t.children[i], u.children[i])
    ensures SameBraces(t, u)
  {
  }

  // ---- The whole text ----

  predicate Balanced(s: string) {
    && (forall k :: 0 <= k <= |s| ==> Balance(s, 0, k) >= 0)
    && Balance(s, 0, |s|) == 0
  }

  lemma {:induction false} OnlyOpens(s: string, from: nat, upto: nat)
    requires from <= upto <= |s| && NoClose(s, from, upto)
    ensures Balance(s, from, upto) >= 0
    ensures Balance(s, from, upto) == 0 ==> NoBraces(s, from, upto)
    decreases upto - from
  {
    if from == upto {
    } else {
      OnlyOpens(s, from, upto - 1);
    }
  }

  lemma RootChildCloses(s: string, current: nat, q: nat)
    requires Balanced(s) && current <= q < |s| && s[q] == '{'
    requires Balance(s, 0, current) == 0 && NoBraces(s, current, q)
    ensures exists m :: Matches(s, q, m)
  {
    BalanceSplit(s, 0, current, q);
    FlatBalance(s, current, q);
    BalanceSplit(s, 0, q, |s|);
    assert Balance(s, q, q + 1) == 1;
    var m := FirstReturn(s, q, q + 1, |s|);
  }

  lemma StrayClose(s: string, current: nat, e: nat)
    requires current <= e < |s| && s[e] == '}' && NoBraces(s, current, e)
    ensures Balance(s, 0, e + 1) == Balance(s, 0, current) - 1
  {
    FlatBalance(s, current, e);
    BalanceSplit(s, 0, current, e);
  }

  lemma RootEnds(s: string, current: nat)
    requires Balanced(s) && current <= |s| && Balance(s, 0, current) == 0
    requires forall e :: current <= e < |s| && s[e] == '}' && NoClose(s, current, e) ==> NoBraces(s, current, e)
    ensures NoBraces(s, current, |s|)
  {
    var e := Find(s, '}', current, |s|);
    if e >= 0 {
      StrayClose(s, current, e);
    }
    OnlyOpens(s, current, |s|);
    BalanceSplit(s, 0, current, |s|);
  }

  lemma RootAdvances(s: string, current: nat, c: Tree)
    requires current <= c.start && Matches(s, c.start, c.end) && NoBraces(s, current, c.start)
    requires Balance(s, 0, current) == 0
    ensures current <= c.start < c.end < |s| && Balance(s, 0, c.end + 1) == 0
  {
    BalanceSplit(s, 0, current, c.end + 1);
    BalanceSplit(s, current, c.start, c.end + 1);
    FlatBalance(s, current, c.start);
  }

  // The global namespace: read from the character after the newline the script puts first.
  method ReadAll(s: string, brace: (nat, int) -> int) returns (r: Option<seq<Tree>>)
    requires |s| > 0 && s[0] == '\n' && Pattern(s, brace)
    ensures Balanced(s) ==> r.Some? && Tiles(s, 1, |s|, r.value)
    ensures r.Some? ==> NamedIn(s, brace, 1, true, r.value)
  {
    hide WellNested, Balance, PossibleEnd, Tiles, Matches, Balanced, InitializerEnd, FirstInitializer, NamedIn, WellNamed;
    var current, children: seq<Tree> := 1, [];
    RootBegins(s);
    NoneNamed(s, brace, 1, true);
    while current < |s| - 1
      invariant 1 <= current <= |s|
      invariant Balance(s, 0, current) == 0 && Tiles(s, 1, current, children)
      invariant Resume(1, children, |children|) == current
      invariant NamedIn(s, brace, 1, true, children)
    {
      var end := SliceEnd(s, PossibleEnd(s, current));
      var q := Find(s, '{', current, end);
      if q == -1 { break; }
      HeuristicIsHarmless(s, current);
      var child := Read(s, brace, q, brace(current, end) == q);
      if child.None? {
        if Balanced(s) { RootChildCloses(s, current, q); }
        return None;
      }
      RootAdvances(s, current, child.value);
      TilesPast(s, 1, current, children, child.value);
      NamedPast(s, brace, 1, true, children, child.value);
      children := children + [child.value];
      current := child.value.end + 1;
    }
    HeuristicIsHarmless(s, current);
    if Balanced(s) {
      RootEnds(s, current);
      TilesOn(s, 1, current, children);
    }
    r := Some(children);
  }

  lemma RootBegins(s: string)
    requires |s| > 0 && s[0] == '\n'
    ensures Balance(s, 0, 1) == 0 && Tiles(s, 1, 1, [])
  {
  }

  lemma TilesOn(s: string, from: nat, current: nat, cs: seq<Tree>)
    requires Tiles(s, from, current, cs) && Resume(from, cs, |cs|) == current && NoBraces(s, current, |s|)
    requires current <= |s|
    ensures Tiles(s, from, |s|, cs)
  {
    hide WellNested;
  }
}
