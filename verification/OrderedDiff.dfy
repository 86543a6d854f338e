// Differences between ordered containers, and between finalizer policies.
module OrderedDiff {
  import opened Options
  import opened Policies

  // The largest index a diff can hold: the finalizer differ uses 16 bits.
  const MAX_INDEX: nat := 0xFFFF

  datatype Insertion<T> = Insertion(at: nat, value: T)
  datatype Diff<T> = Diff(removes: seq<nat>, inserts: seq<Insertion<T>>)

  // ---- What a diff means ----

  // s without the elements at the positions in removes, where s starts at position base.
  function Erase<T>(s: seq<T>, removes: seq<nat>, base: nat): (k: seq<T>) {
    if s == [] then []
    else if removes != [] && removes[0] == base then Erase(s[1..], removes[1..], base + 1)
    else [s[0]] + Erase(s[1..], removes, base + 1)
  }

  // The kept elements with the inserted ones at their final positions.
  function Weave<T>(kept: seq<T>, inserts: seq<Insertion<T>>, base: nat): (t: seq<T>)
    decreases |kept| + |inserts|
  {
    if inserts != [] && inserts[0].at == base then [inserts[0].value] + Weave(kept, inserts[1..], base + 1)
    else if kept == [] then []
    else [kept[0]] + Weave(kept[1..], inserts, base + 1)
  }

  ghost predicate Increasing(r: seq<nat>) {
    forall i, j :: 0 <= i < j < |r| ==> r[i] < r[j]
  }

  // Positions increase and each is within reach when its turn comes.
  ghost predicate Applies<T>(n: nat, d: Diff<T>) {
    && Increasing(d.removes) && (forall i :: 0 <= i < |d.removes| ==> d.removes[i] < n)
    && Reachable(n - |d.removes|, d.inserts)
  }

  // Insertions into a container of n elements.
  ghost predicate Reachable<T>(n: int, inserts: seq<Insertion<T>>) {
    && (forall i, j :: 0 <= i < j < |inserts| ==> inserts[i].at < inserts[j].at)
    && (forall i :: 0 <= i < |inserts| ==> inserts[i].at <= n + i)
  }

  // ---- diff ----

  // Whether the loop drops source[s], takes target[t], or steps over both.
  function Choose<T(==)>(source: seq<T>, target: seq<T>, s: nat, t: nat): (c: (bool, bool))
    requires s <= |source| && t <= |target| && (s < |source| || t < |target|)
    ensures !c.0 && !c.1 ==> s < |source| && t < |target| && source[s] == target[t]
    ensures c.0 ==> s < |source|
    ensures c.1 ==> t < |target|
  {
    if t == |target| then (true, false)
    else if s == |source| then (false, true)
    else if source[s] == target[t] then (false, false)
    else if s == |source| - 1 && t == |target| - 1 then (true, true)
    else if s + 1 < |source| && t + 1 < |target| && source[s + 1] == target[t + 1] then (true, true)
    else if t + 1 < |target| && source[s] == target[t + 1] then (false, true)
    else (true, false)
  }

  function DiffFrom<T(==)>(source: seq<T>, target: seq<T>, s: nat, t: nat): (d: Diff<T>)
    requires s <= |source| && t <= |target|
    decreases |source| + |target| - s - t
  {
    if s == |source| && t == |target| then Diff([], [])
    else
      var (drop, add) := Choose(source, target, s, t);
      var rest := DiffFrom(source, target, if drop || !add then s + 1 else s, if add || !drop then t + 1 else t);
      Diff(if drop then [s] + rest.removes else rest.removes, if add then [Insertion(t, target[t])] + rest.inserts else rest.inserts)
  }

  lemma DiffUnfold<T>(source: seq<T>, target: seq<T>, s: nat, t: nat)
    requires s <= |source| && t <= |target| && (s < |source| || t < |target|)
    ensures var (drop, add) := Choose(source, target, s, t);
      var rest := DiffFrom(source, target, if drop || !add then s + 1 else s, if add || !drop then t + 1 else t);
      DiffFrom(source, target, s, t) ==
      Diff(if drop then [s] + rest.removes else rest.removes, if add then [Insertion(t, target[t])] + rest.inserts else rest.inserts)
  {
  }

  // What has been collected so far, followed by what remains, is the whole diff.
  ghost predicate Collected<T>(source: seq<T>, target: seq<T>, s: nat, t: nat, removes: seq<nat>, inserts: seq<Insertion<T>>) {
    && s <= |source| && t <= |target|
    && var all, rest := DiffFrom(source, target, 0, 0), DiffFrom(source, target, s, t);
       all.removes == removes + rest.removes && all.inserts == inserts + rest.inserts
  }

  lemma CollectMore<T>(source: seq<T>, target: seq<T>, s: nat, t: nat, removes: seq<nat>, inserts: seq<Insertion<T>>,
                       drop: bool, add: bool)
    requires Collected(source, target, s, t, removes, inserts) && (s < |source| || t < |target|)
    requires Choose(source, target, s, t) == (drop, add)
    ensures drop || !add ==> s < |source|
    ensures add || !drop ==> t < |target|
    ensures Collected(source, target, if drop || !add then s + 1 else s, if add || !drop then t + 1 else t,
                      if drop then removes + [s] else removes,
                      if add then inserts + [Insertion(t, target[t])] else inserts)
  {
    hide DiffFrom, Choose;
    ChoiceMoves(source, target, s, t);
    DiffUnfold(source, target, s, t);
  }

  lemma DiffDone<T>(source: seq<T>, target: seq<T>)
    ensures DiffFrom(source, target, |source|, |target|) == Diff([], [])
  {
  }

  lemma CollectKept<T>(source: seq<T>, target: seq<T>, s: nat, t: nat, removes: seq<nat>, inserts: seq<Insertion<T>>)
    requires s < |source| && t < |target| && source[s] == target[t]
    requires Collected(source, target, s, t, removes, inserts)
    ensures Collected(source, target, s + 1, t + 1, removes, inserts)
  {
    hide DiffFrom, Collected;
    CollectMore(source, target, s, t, removes, inserts, false, false);
  }

  lemma CollectReplaced<T>(source: seq<T>, target: seq<T>, s: nat, t: nat, removes: seq<nat>, inserts: seq<Insertion<T>>)
    requires s < |source| && t < |target| && Choose(source, target, s, t) == (true, true)
    requires Collected(source, target, s, t, removes, inserts)
    ensures Collected(source, target, s + 1, t + 1, removes + [s], inserts + [Insertion(t, target[t])])
  {
    hide DiffFrom, Collected, Choose;
    CollectMore(source, target, s, t, removes, inserts, true, true);
  }

  lemma CollectAdded<T>(source: seq<T>, target: seq<T>, s: nat, t: nat, removes: seq<nat>, inserts: seq<Insertion<T>>)
    requires s <= |source| && t < |target| && Choose(source, target, s, t) == (false, true)
    requires Collected(source, target, s, t, removes, inserts)
    ensures Collected(source, target, s, t + 1, removes, inserts + [Insertion(t, target[t])])
  {
    hide DiffFrom, Collected, Choose;
    CollectMore(source, target, s, t, removes, inserts, false, true);
  }

  lemma CollectDropped<T>(source: seq<T>, target: seq<T>, s: nat, t: nat, removes: seq<nat>, inserts: seq<Insertion<T>>)
    requires s < |source| && t <= |target| && Choose(source, target, s, t) == (true, false)
    requires Collected(source, target, s, t, removes, inserts)
    ensures Collected(source, target, s + 1, t, removes + [s], inserts)
  {
    hide DiffFrom, Collected, Choose;
    CollectMore(source, target, s, t, removes, inserts, true, false);
  }

  /** One round of the loop while both containers have elements left. */
  method Advance<T(==)>(source: seq<T>, target: seq<T>, s0: nat, t0: nat, removes0: seq<nat>, inserts0: seq<Insertion<T>>)
    returns (s: nat, t: nat, removes: seq<nat>, inserts: seq<Insertion<T>>)
    requires s0 < |source| && t0 < |target| && Collected(source, target, s0, t0, removes0, inserts0)
    ensures s0 <= s <= |source| && t0 <= t <= |target| && s0 + t0 < s + t
    ensures Collected(source, target, s, t, removes, inserts)
  {
    hide DiffFrom, Collected;
    s, t, removes, inserts := s0, t0, removes0, inserts0;
    if source[s] == target[t] {
      CollectKept(source, target, s, t, removes, inserts);
      s, t := s + 1, t + 1;
    } else if s == |source| - 1 && t == |target| - 1 {
      CollectReplaced(source, target, s, t, removes, inserts);
      removes, inserts := removes + [s], inserts + [Insertion(t, target[t])];
      s, t := s + 1, t + 1;
    } else if s + 1 < |source| && t + 1 < |target| && source[s + 1] == target[t + 1] {
      CollectReplaced(source, target, s, t, removes, inserts);
      removes, inserts := removes + [s], inserts + [Insertion(t, target[t])];
      s, t := s + 1, t + 1;
    } else if t + 1 < |target| && source[s] == target[t + 1] {
      CollectAdded(source, target, s, t, removes, inserts);
      inserts := inserts + [Insertion(t, target[t])];
      t := t + 1;
    } else {
      CollectDropped(source, target, s, t, removes, inserts);
      removes := removes + [s];
      s := s + 1;
    }
  }

  method Compare<T(==)>(source: seq<T>, target: seq<T>) returns (r: Option<Diff<T>>)
    ensures r == if |source| > MAX_INDEX + 1 || |target| > MAX_INDEX + 1 then None
                 else Some(DiffFrom(source, target, 0, 0))
  {
    if (source != [] && |source| - 1 > MAX_INDEX) || (target != [] && |target| - 1 > MAX_INDEX) {
      return None;
    }
    hide DiffFrom, Collected;
    var s, t := 0, 0;
    var removes: seq<nat>, inserts: seq<Insertion<T>> := [], [];
    CollectBegins(source, target);
    while s < |source| || t < |target|
      invariant s <= |source| && t <= |target|
      invariant Collected(source, target, s, t, removes, inserts)
      decreases |source| + |target| - s - t
    {
      if s < |source| && t < |target| {
        s, t, removes, inserts := Advance(source, target, s, t, removes, inserts);
      } else if s < |source| {
        CollectDropped(source, target, s, t, removes, inserts);
        removes := removes + [s];
        s := s + 1;
      } else {
        CollectAdded(source, target, s, t, removes, inserts);
        inserts := inserts + [Insertion(t, target[t])];
        t := t + 1;
      }
    }
    CollectEnds(source, target, removes, inserts);
    r := Some(Diff(removes, inserts));
  }

  lemma CollectBegins<T>(source: seq<T>, target: seq<T>)
    ensures Collected(source, target, 0, 0, [], [])
  {
    hide DiffFrom;
    var all := DiffFrom(source, target, 0, 0);
    assert [] + all.removes == all.removes && [] + all.inserts == all.inserts;
  }

  lemma CollectEnds<T>(source: seq<T>, target: seq<T>, removes: seq<nat>, inserts: seq<Insertion<T>>)
    requires Collected(source, target, |source|, |target|, removes, inserts)
    ensures DiffFrom(source, target, 0, 0) == Diff(removes, inserts)
  {
    DiffDone(source, target);
    assert removes + [] == removes && inserts + [] == inserts;
  }

  // ---- Which positions are dropped and inserted ----

  /** Equal containers differ in nothing, from any place on. */
  lemma {:induction false} SameGivesNothing<T>(source: seq<T>, s: nat)
    requires s <= |source|
    ensures DiffFrom(source, source, s, s) == Diff([], [])
    decreases |source| - s
  {
    if s == |source| {
    } else {
      SameGivesNothing(source, s + 1);
    }
  }

  // The vectors of the tests, which take every branch of the choice.
  lemma DropsVector()
    ensures DiffFrom("abcde", "acef", 0, 0) == Diff([1, 3], [Insertion(3, 'f')])
  {
    var source, target := "abcde", "acef";
    DiffDone(source, target);
    hide DiffFrom;
    DiffUnfold(source, target, 5, 3);
    assert DiffFrom(source, target, 5, 3) == Diff([], [Insertion(3, 'f')]);
    DiffUnfold(source, target, 4, 2);
    assert DiffFrom(source, target, 4, 2) == Diff([], [Insertion(3, 'f')]);
    DiffUnfold(source, target, 3, 2);
    assert DiffFrom(source, target, 3, 2) == Diff([3], [Insertion(3, 'f')]);
    DiffUnfold(source, target, 2, 1);
    assert DiffFrom(source, target, 2, 1) == Diff([3], [Insertion(3, 'f')]);
    DiffUnfold(source, target, 1, 1);
    assert DiffFrom(source, target, 1, 1) == Diff([1, 3], [Insertion(3, 'f')]);
    DiffUnfold(source, target, 0, 0);
    assert DiffFrom(source, target, 0, 0) == Diff([1, 3], [Insertion(3, 'f')]);
  }

  lemma ReplacesVector()
    ensures DiffFrom("axcde", "zcyf", 0, 0) == Diff([0, 1, 3, 4], [Insertion(0, 'z'), Insertion(2, 'y'), Insertion(3, 'f')])
  {
    var source, target := "axcde", "zcyf";
    ReplacesTail();
    hide DiffFrom;
    DiffUnfold(source, target, 2, 1);
    DiffUnfold(source, target, 1, 0);
    DiffUnfold(source, target, 0, 0);
    assert [1] + [3, 4] == [1, 3, 4] && [0] + [1, 3, 4] == [0, 1, 3, 4];
  }

  lemma ReplacesTail()
    ensures DiffFrom("axcde", "zcyf", 3, 2) == Diff([3, 4], [Insertion(2, 'y'), Insertion(3, 'f')])
  {
    var source, target := "axcde", "zcyf";
    DiffDone(source, target);
    assert DiffFrom(source, target, 5, 3) == Diff([], [Insertion(3, 'f')]);
    assert DiffFrom(source, target, 5, 2) == Diff([], [Insertion(2, 'y'), Insertion(3, 'f')]);
    assert DiffFrom(source, target, 4, 2) == Diff([4], [Insertion(2, 'y'), Insertion(3, 'f')]);
  }

  lemma SwappedVector()
    ensures DiffFrom("ab", "ba", 0, 0) == Diff([1], [Insertion(0, 'b')])
  {
    var source, target := "ab", "ba";
    DiffDone(source, target);
    assert DiffFrom(source, target, 1, 2) == Diff([1], []);
    assert DiffFrom(source, target, 0, 1) == Diff([1], []);
  }

  lemma RepeatedVector()
    ensures DiffFrom("xx", "yx", 0, 0) == Diff([0], [Insertion(0, 'y')])
  {
    var source, target := "xx", "yx";
    DiffDone(source, target);
    assert DiffFrom(source, target, 1, 1) == Diff([], []);
  }

  lemma SingleVector()
    ensures DiffFrom("a", "f", 0, 0) == Diff([0], [Insertion(0, 'f')])
  {
    var source, target := "a", "f";
    DiffDone(source, target);
    assert DiffFrom(source, target, 0, 0) == Diff([0], [Insertion(0, 'f')]);
  }

  // ---- apply_diff ----

  lemma {:induction false} EraseSkips<T>(s: seq<T>, removes: seq<nat>, base: nat, n: nat)
    requires n <= |s| && (removes != [] ==> base + n <= removes[0])
    ensures Erase(s, removes, base) == s[..n] + Erase(s[n..], removes, base + n)
    decreases n
  {
    if n > 0 {
      EraseSkips(s[1..], removes, base + 1, n - 1);
      assert s[1..][n - 1..] == s[n..];
      assert s[..n] == [s[0]] + s[1..][..n - 1];
    } else {
      assert s[0..] == s;
    }
  }

  lemma {:induction false} WeaveSkips<T>(kept: seq<T>, inserts: seq<Insertion<T>>, base: nat, n: nat)
    requires n <= |kept| && (inserts != [] ==> base + n <= inserts[0].at)
    ensures Weave(kept, inserts, base) == kept[..n] + Weave(kept[n..], inserts, base + n)
    decreases n
  {
    hide Weave;
    if n > 0 {
      WeaveKept(kept, inserts, base);
      WeaveSkips(kept[1..], inserts, base + 1, n - 1);
      assert kept[1..][n - 1..] == kept[n..];
      assert kept[..n] == [kept[0]] + kept[1..][..n - 1];
    } else {
      assert kept[0..] == kept;
    }
  }

  lemma WeaveKept<T>(kept: seq<T>, inserts: seq<Insertion<T>>, base: nat)
    requires kept != [] && (inserts != [] ==> base < inserts[0].at)
    ensures Weave(kept, inserts, base) == [kept[0]] + Weave(kept[1..], inserts, base + 1)
  {
  }

  // The elements are erased and inserted one at a time; any position out of order or out
  // of reach stops the whole.
  method Apply<T>(source: seq<T>, d: Diff<T>) returns (r: Option<seq<T>>)
    ensures r.Some? <==> Applies(|source|, d)
    ensures r.Some? ==> r.value == Weave(Erase(source, d.removes, 0), d.inserts, 0)
  {
    var kept := ApplyRemoves(source, d.removes);
    if kept.None? { return None; }
    r := ApplyInserts(kept.value, d.inserts);
  }

  method ApplyRemoves<T>(source: seq<T>, removes: seq<nat>) returns (r: Option<seq<T>>)
    ensures r.Some? <==> Increasing(removes) && forall i :: 0 <= i < |removes| ==> removes[i] < |source|
    ensures r.Some? ==> r.value == Erase(source, removes, 0) && |r.value| == |source| - |removes|
  {
    hide Erase;
    var container, m := source, 0;
    assert source[..0] + Erase(source[0..], removes[0..], 0) == Erase(source, removes, 0) by {
      assert source[0..] == source && removes[0..] == removes;
    }
    for i := 0 to |removes|
      invariant |container| == |source| - i && 0 <= m <= |container|
      invariant forall j, k :: 0 <= j < k < i ==> removes[j] < removes[k]
      invariant forall j :: 0 <= j < i ==> removes[j] < |source|
      invariant m + i == if i > 0 then removes[i - 1] + 1 else 0
      invariant Erase(source, removes, 0) == container[..m] + Erase(container[m..], removes[i..], m + i)
    {
      if i > 0 && removes[i] <= removes[i - 1] { return None; }
      var at := removes[i] - i;
      if at >= |container| { return None; }
      EraseAt(container, m, removes, i);
      container, m := container[..at] + container[at + 1..], at;
    }
    assert removes[|removes|..] == [] && container == container[..m] + container[m..];
    EraseNone(container[m..], m + |removes|);
    r := Some(container);
  }

  lemma EraseAt<T>(container: seq<T>, m: nat, removes: seq<nat>, i: nat)
    requires i < |removes| && m <= removes[i] - i < |container|
    ensures var at := removes[i] - i;
      var next := container[..at] + container[at + 1..];
      container[..m] + Erase(container[m..], removes[i..], m + i)
      == next[..at] + Erase(next[at..], removes[i + 1..], at + i + 1)
  {
    hide Erase;
    var at := removes[i] - i;
    var next := container[..at] + container[at + 1..];
    EraseSkips(container[m..], removes[i..], m + i, at - m);
    EraseFirst(container[m..][at - m..], removes[i..]);
    assert next[..at] == container[..m] + container[m..][..at - m];
    assert next[at..] == container[m..][at - m..][1..];
    assert removes[i..][1..] == removes[i + 1..];
  }

  lemma EraseFirst<T>(s: seq<T>, removes: seq<nat>)
    requires s != [] && removes != []
    ensures Erase(s, removes, removes[0]) == Erase(s[1..], removes[1..], removes[0] + 1)
  {
  }

  lemma {:induction false} EraseNone<T>(s: seq<T>, base: nat)
    ensures Erase(s, [], base) == s
  {
    if s == [] {
    } else {
      EraseNone(s[1..], base + 1);
    }
  }

  method ApplyInserts<T>(kept: seq<T>, inserts: seq<Insertion<T>>) returns (r: Option<seq<T>>)
    ensures r.Some? <==> Reachable(|kept|, inserts)
    ensures r.Some? ==> r.value == Weave(kept, inserts, 0)
  {
    hide Weave;
    var container, m := kept, 0;
    assert kept[..0] + Weave(kept[0..], inserts[0..], 0) == Weave(kept, inserts, 0) by {
      assert kept[0..] == kept && inserts[0..] == inserts;
    }
    for i := 0 to |inserts|
      invariant |container| == |kept| + i && 0 <= m <= |container|
      invariant forall j, k :: 0 <= j < k < i ==> inserts[j].at < inserts[k].at
      invariant forall j :: 0 <= j < i ==> inserts[j].at <= |kept| + j
      invariant m == if i > 0 then inserts[i - 1].at + 1 else 0
      invariant Weave(kept, inserts, 0) == container[..m] + Weave(container[m..], inserts[i..], m)
    {
      if i > 0 && inserts[i].at <= inserts[i - 1].at { return None; }
      var at := inserts[i].at;
      if at > |container| { return None; }
      WeaveAt(container, m, inserts, i);
      container, m := container[..at] + [inserts[i].value] + container[at..], at + 1;
    }
    assert inserts[|inserts|..] == [] && container == container[..m] + container[m..];
    WeaveNone(container[m..], m);
    r := Some(container);
  }

  lemma WeaveAt<T>(container: seq<T>, m: nat, inserts: seq<Insertion<T>>, i: nat)
    requires i < |inserts| && m <= inserts[i].at <= |container|
    ensures var at := inserts[i].at;
      var next := container[..at] + [inserts[i].value] + container[at..];
      container[..m] + Weave(container[m..], inserts[i..], m)
      == next[..at + 1] + Weave(next[at + 1..], inserts[i + 1..], at + 1)
  {
    hide Weave;
    var at := inserts[i].at;
    var next := container[..at] + [inserts[i].value] + container[at..];
    WeaveSkips(container[m..], inserts[i..], m, at - m);
    WeaveFirst(container[m..][at - m..], inserts[i..]);
    assert next[..at + 1] == container[..m] + container[m..][..at - m] + [inserts[i].value];
    assert next[at + 1..] == container[m..][at - m..];
    assert inserts[i..][1..] == inserts[i + 1..];
  }

  lemma WeaveFirst<T>(kept: seq<T>, inserts: seq<Insertion<T>>)
    requires inserts != []
    ensures Weave(kept, inserts, inserts[0].at) == [inserts[0].value] + Weave(kept, inserts[1..], inserts[0].at + 1)
  {
  }

  lemma {:induction false} WeaveNone<T>(kept: seq<T>, base: nat)
    ensures Weave(kept, [], base) == kept
  {
    if kept == [] {
    } else {
      WeaveNone(kept[1..], base + 1);
    }
  }

  // ---- Round trip ----

  ghost predicate RemovesFit(r: seq<nat>, s: nat, n: nat) {
    Increasing(r) && forall i :: 0 <= i < |r| ==> s <= r[i] < n
  }

  // Insertions into a container that holds k elements from position t on.
  ghost predicate InsertsFit<T>(inserts: seq<Insertion<T>>, t: nat, k: int) {
    && (forall i, j :: 0 <= i < j < |inserts| ==> inserts[i].at < inserts[j].at)
    && (forall i :: 0 <= i < |inserts| ==> t <= inserts[i].at <= t + k + i)
  }

  lemma RemoveMore(r: seq<nat>, s: nat, n: nat)
    requires RemovesFit(r, s + 1, n) && s < n
    ensures RemovesFit([s] + r, s, n) && RemovesFit(r, s, n)
  {
  }

  lemma InsertMore<T>(inserts: seq<Insertion<T>>, t: nat, k: int, v: T)
    requires InsertsFit(inserts, t + 1, k) && k >= 0
    ensures InsertsFit([Insertion(t, v)] + inserts, t, k) && InsertsFit(inserts, t, k + 1)
  {
    var more := [Insertion(t, v)] + inserts;
    forall i | 0 <= i < |more| ensures t <= more[i].at <= t + k + i {
      assert i > 0 ==> more[i] == inserts[i - 1];
    }
    forall i, j | 0 <= i < j < |more| ensures more[i].at < more[j].at {
      assert more[j] == inserts[j - 1];
      assert i > 0 ==> more[i] == inserts[i - 1];
    }
  }

  lemma {:induction false} DiffFits<T>(source: seq<T>, target: seq<T>, s: nat, t: nat)
    requires s <= |source| && t <= |target|
    ensures var d := DiffFrom(source, target, s, t);
      && |d.removes| <= |source| - s
      && RemovesFit(d.removes, s, |source|) && InsertsFit(d.inserts, t, |source| - s - |d.removes|)
    decreases |source| + |target| - s - t
  {
    hide RemovesFit, InsertsFit, Choose, DiffFrom;
    if s < |source| || t < |target| {
      var (drop, add) := Choose(source, target, s, t);
      var s', t' := if drop || !add then s + 1 else s, if add || !drop then t + 1 else t;
      ChoiceMoves(source, target, s, t);
      DiffFits(source, target, s', t');
      DiffUnfold(source, target, s, t);
      var d, rest := DiffFrom(source, target, s, t), DiffFrom(source, target, s', t');
      if s' > s { RemoveMore(rest.removes, s, |source|); }
      if t' > t { InsertMore(rest.inserts, t, |source| - s' - |rest.removes|, target[t]); }
    } else {
      DiffDone(source, target);
      NothingFits(target, s, t);
    }
  }

  lemma ChoiceMoves<T>(source: seq<T>, target: seq<T>, s: nat, t: nat)
    requires s <= |source| && t <= |target| && (s < |source| || t < |target|)
    ensures var (drop, add) := Choose(source, target, s, t);
      && (drop || !add ==> s < |source|) && (add || !drop ==> t < |target|)
  {
  }

  lemma NothingFits<T>(target: seq<T>, s: nat, t: nat)
    ensures RemovesFit([], s, s) && InsertsFit<T>([], t, 0)
  {
  }

  lemma {:induction false} DiffRestores<T>(source: seq<T>, target: seq<T>, s: nat, t: nat)
    requires s <= |source| && t <= |target|
    ensures var d := DiffFrom(source, target, s, t);
      Weave(Erase(source[s..], d.removes, s), d.inserts, t) == target[t..]
    decreases |source| + |target| - s - t
  {
    hide Choose, DiffFrom, Increasing;
    DiffDone(source, target);
    if s == |source| && t == |target| {
    } else {
      DiffUnfold(source, target, s, t);
      var (drop, add) := Choose(source, target, s, t);
      var s', t' := if drop || !add then s + 1 else s, if add || !drop then t + 1 else t;
      ChoiceMoves(source, target, s, t);
      DiffRestores(source, target, s', t');
      DiffFits(source, target, s', t');
      var d, rest := DiffFrom(source, target, s, t), DiffFrom(source, target, s', t');
      assert s < |source| ==> source[s..][1..] == source[s + 1..];
      assert t < |target| ==> target[t..] == [target[t]] + target[t + 1..];
      assert drop ==> d.removes[1..] == rest.removes;
      assert add ==> d.inserts[1..] == rest.inserts;
      if !drop && !add { assert source[s] == target[t]; }
    }
  }

  /** Applying the difference of two containers to the first gives the second. */
  lemma DiffApplies<T>(source: seq<T>, target: seq<T>)
    ensures var d := DiffFrom(source, target, 0, 0);
      Applies(|source|, d) && Weave(Erase(source, d.removes, 0), d.inserts, 0) == target
  {
    DiffFits(source, target, 0, 0);
    DiffRestores(source, target, 0, 0);
    assert source[0..] == source && target[0..] == target;
  }

  // ---- Finalizer policies ----

  datatype PolicyDiff = PolicyDiff(generation: nat, threshold: nat, finalizers: Diff<Authority>)

  // Applying d to source succeeds and gives target.
  ghost predicate Yields(source: Policy, d: PolicyDiff, target: Policy) {
    && Applies(|source.finalizers|, d.finalizers)
    && target.generation == d.generation && target.threshold == d.threshold
    && target.finalizers == Weave(Erase(source.finalizers, d.finalizers.removes, 0), d.finalizers.inserts, 0)
  }

  /** The diff made from two policies turns the first into the second. */
  method CreateDiff(source: Policy, target: Policy) returns (r: Option<PolicyDiff>)
    ensures r.Some? <==> |source.finalizers| <= MAX_INDEX + 1 && |target.finalizers| <= MAX_INDEX + 1
    ensures r.Some? ==> Yields(source, r.value, target)
  {
    var d := Compare(source.finalizers, target.finalizers);
    if d.None? { return None; }
    DiffApplies(source.finalizers, target.finalizers);
    r := Some(PolicyDiff(target.generation, target.threshold, d.value));
  }

  /** Applying a diff gives exactly what the diff yields, and fails when it yields nothing. */
  method ApplyDiff(source: Policy, d: PolicyDiff) returns (r: Option<Policy>)
    ensures forall target :: r == Some(target) <==> Yields(source, d, target)
  {
    var finalizers := Apply(source.finalizers, d.finalizers);
    if finalizers.None? { return None; }
    r := Some(Policy(d.generation, d.threshold, finalizers.value));
  }
}
