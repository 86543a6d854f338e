// What the verdict of the field comparison means.
module ReflectionProofs {
  import opened ReflectionMatcher

  function Keep(s: seq<Name>, out: set<Name>): (t: seq<Name>) {
    if s == [] then []
    else if s[0] in out then Keep(s[1..], out)
    else [s[0]] + Keep(s[1..], out)
  }

  function Names(s: seq<Name>): (n: set<Name>) {
    set x | x in s
  }

  // The lists describe how R differs from F: ignored fields are declared and not
  // reflected, swapped ones are both, and what is left stands in the same order.
  ghost predicate Described(F: seq<Name>, R: seq<Name>, ignored: seq<Name>, swapped: seq<Name>) {
    && NoRepeats(R) && NoRepeats(ignored) && NoRepeats(swapped)
    && (forall x :: x in ignored ==> x in F && x !in R)
    && (forall x :: x in swapped ==> x in F && x in R)
    && Keep(F, Names(ignored) + Names(swapped)) == Keep(R, Names(swapped))
  }

  // Fields i..j of the class are all listed as swapped and none of them is reflected
  // before r; i and r are where the two lists resume after the same kept field, or
  // their starts.
  ghost predicate SwapRun(F: seq<Name>, R: seq<Name>, swapped: seq<Name>, i: nat, j: nat, r: nat) {
    && i <= j < |F| && r < |R|
    && (forall k :: i <= k <= j ==> F[k] in swapped && F[k] !in R[..r])
    && (if i == 0 then r == 0 else r > 0 && F[i - 1] == R[r - 1] && F[i - 1] !in swapped)
  }

  // A swapped field is found where it already stands in order.
  ghost predicate NeedlessSwap(F: seq<Name>, R: seq<Name>, swapped: seq<Name>) {
    exists i: nat, j: nat, r: nat :: SwapRun(F, R, swapped, i, j, r) && R[r] == F[j]
  }

  // ---- Lists ----

  lemma {:induction false} RemoveIn(s: seq<Name>, x: Name, y: Name)
    requires x in s
    ensures y in Remove(s, x) ==> y in s
    ensures y in s && y != x ==> y in Remove(s, x)
  {
    if s[0] == x {
    } else {
      RemoveIn(s[1..], x, y);
    }
  }

  lemma {:induction false} RemoveDistinct(s: seq<Name>, x: Name)
    requires x in s && NoRepeats(s)
    ensures NoRepeats(Remove(s, x)) && x !in Remove(s, x)
  {
    if s[0] == x {
    } else {
      RemoveDistinct(s[1..], x);
      RemoveIn(s[1..], x, s[0]);
      var t := Remove(s[1..], x);
      assert s[0] !in s[1..] && s[0] !in t;
    }
  }

  lemma {:induction false} KeepSame(s: seq<Name>, a: set<Name>, b: set<Name>)
    requires forall x :: x in s ==> (x in a <==> x in b)
    ensures Keep(s, a) == Keep(s, b)
  {
    if s == [] {
    } else {
      KeepSame(s[1..], a, b);
    }
  }

  lemma {:induction false} KeptNone(s: seq<Name>, out: set<Name>)
    ensures Keep(s, out) == [] <==> forall x :: x in s ==> x in out
  {
    if s == [] {
    } else {
      KeptNone(s[1..], out);
      assert s == [s[0]] + s[1..];
    }
  }

  lemma Multiplicity(s: seq<Name>, i: nat, j: nat)
    requires i < j < |s| && s[i] == s[j]
    ensures multiset(s)[s[i]] >= 2
  {
    assert s == s[..i] + [s[i]] + s[i + 1..j] + [s[j]] + s[j + 1..];
  }

  lemma {:induction false} DistinctOnce(s: seq<Name>, x: Name)
    requires NoRepeats(s)
    ensures multiset(s)[x] <= 1
  {
    if s == [] {
    } else {
      DistinctOnce(s[1..], x);
      assert s == [s[0]] + s[1..];
      assert s[0] !in s[1..];
    }
  }

  lemma OnceDistinct(s: seq<Name>)
    requires forall x :: multiset(s)[x] <= 1
    ensures NoRepeats(s)
  {
    forall i, j | 0 <= i < j < |s| ensures s[i] != s[j] {
      if s[i] == s[j] { Multiplicity(s, i, j); }
    }
  }

  // ---- Soundness: nothing is lost or invented ----

  function Count(s: seq<Name>, x: Name): (n: nat) {
    multiset(s)[x]
  }

  // The remainders of the two lists hold x equally often, once the debts are counted.
  ghost predicate Balanced(F: seq<Name>, R: seq<Name>, s: Cursor, x: Name)
    requires InRange(F, R, s)
  {
    Count(F[s.f..], x) + Count(s.back, x)
    == Count(R[s.r..], x) + Count(s.ignored, x) + Count(s.fwd, x)
  }

  // Every swap of x still listed or owed forward is covered by a field still to come.
  ghost predicate Covered(F: seq<Name>, s: Cursor, x: Name)
    requires s.f <= |F|
  {
    Count(s.swapped, x) + Count(s.fwd, x) <= Count(F[s.f..], x)
  }

  lemma CountFrom(s: seq<Name>, i: nat, x: Name)
    requires i < |s|
    ensures Count(s[i..], x) == Count(s[i + 1..], x) + (if s[i] == x then 1 else 0)
  {
    assert s[i..] == [s[i]] + s[i + 1..];
  }

  lemma CountAppend(s: seq<Name>, y: Name, x: Name)
    ensures Count(s + [y], x) == Count(s, x) + (if y == x then 1 else 0)
  {
  }

  lemma {:induction false} CountRemoved(s: seq<Name>, y: Name, x: Name)
    requires y in s
    ensures Count(s, x) == Count(Remove(s, y), x) + (if y == x then 1 else 0)
  {
    assert s == [s[0]] + s[1..];
    if s[0] == y {
    } else {
      CountRemoved(s[1..], y, x);
    }
  }

  lemma {:induction false} DrainBalance(rest: seq<Name>, back: seq<Name>, x: Name)
    ensures var (b, unused) := Drain(rest, back);
      Count(rest, x) + Count(b, x) == Count(back, x) + Count(unused, x)
  {
    hide Remove;
    if rest == [] {
    } else {
      CountFrom(rest, 0, x);
      assert rest[0..] == rest;
      if rest[0] in back {
        CountRemoved(back, rest[0], x);
        DrainBalance(rest[1..], Remove(back, rest[0]), x);
      } else {
        DrainBalance(rest[1..], back, x);
      }
    }
  }

  lemma StepBalance(F: seq<Name>, R: seq<Name>, s: Cursor, x: Name)
    requires InRange(F, R, s) && s.f < |F|
    requires var o := Step(F, R, s); o.Continue? && Balanced(F, R, o.next, x) && Covered(F, o.next, x)
    ensures Balanced(F, R, s, x) && Covered(F, s, x)
  {
    hide Remove, Count;
    CountFrom(F, s.f, x);
    if s.r < |R| { CountFrom(R, s.r, x); }
    if F[s.f] in s.swapped {
      CountAppend(s.back, F[s.f], x);
      CountRemoved(s.swapped, F[s.f], x);
    } else if s.r < |R| && R[s.r] in s.swapped {
      CountAppend(s.fwd, R[s.r], x);
      CountRemoved(s.swapped, R[s.r], x);
    } else if F[s.f] in s.ignored {
      CountRemoved(s.ignored, F[s.f], x);
    } else if s.r < |R| && R[s.r] in s.back {
      CountRemoved(s.back, R[s.r], x);
    } else if F[s.f] in s.fwd {
      CountRemoved(s.fwd, F[s.f], x);
    }
  }

  lemma {:induction false} RunBalance(F: seq<Name>, R: seq<Name>, s: Cursor, x: Name)
    requires InRange(F, R, s) && Run(F, R, s) == Passed
    ensures Balanced(F, R, s, x) && Covered(F, s, x)
    ensures x in s.swapped ==> x in R
    decreases |F| + |R| - s.f - s.r
  {
    hide Remove, Drain;
    if s.f == |F| {
      DrainBalance(R[s.r..], s.back, x);
    } else {
      RunBalance(F, R, Step(F, R, s).next, x);
      StepBalance(F, R, s, x);
      if F[s.f] in s.swapped {
        RemoveIn(s.swapped, F[s.f], x);
      } else if s.r < |R| && R[s.r] in s.swapped {
        RemoveIn(s.swapped, R[s.r], x);
      }
    }
  }

  /** Whatever the lists hold, an accepted class has exactly its reflected fields and its
      ignored ones, with their multiplicities, and every swapped name is declared and reflected. */
  lemma AcceptedIsSound(F: seq<Name>, R: seq<Name>, ignored: seq<Name>, swapped: seq<Name>)
    requires Check(F, R, ignored, swapped) == Passed
    ensures multiset(F) == multiset(R) + multiset(ignored)
    ensures multiset(swapped) <= multiset(F)
    ensures forall x :: x in swapped ==> x in R
  {
    hide Run, Step;
    assert F[0..] == F && R[0..] == R;
    forall x: Name
      ensures multiset(F)[x] == multiset(R)[x] + multiset(ignored)[x]
      ensures multiset(swapped)[x] <= multiset(F)[x]
      ensures x in swapped ==> x in R
    {
      RunBalance(F, R, Start(ignored, swapped), x);
    }
  }

  // ---- Soundness: what is kept stands in the same order ----

  function OffClass(s: Cursor): (out: set<Name>) { Names(s.ignored + s.swapped + s.fwd) }
  function OffReflection(s: Cursor): (out: set<Name>) { Names(s.swapped + s.back) }

  ghost predicate Aligned(F: seq<Name>, R: seq<Name>, s: Cursor)
    requires InRange(F, R, s)
  {
    Keep(F[s.f..], OffClass(s)) == Keep(R[s.r..], OffReflection(s))
  }

  lemma KeepHead(s: seq<Name>, out: set<Name>)
    requires s != []
    ensures Keep(s, out) == (if s[0] in out then [] else [s[0]]) + Keep(s[1..], out)
  {
  }

  lemma KeepClass(F: seq<Name>, R: seq<Name>, s: Cursor)
    requires InRange(F, R, s) && s.f < |F| && NoRepeats(F) && Step(F, R, s).Continue?
    ensures var n := Step(F, R, s).next;
      Keep(F[s.f..], OffClass(s)) ==
      (if n.f > s.f && n.r > s.r then [F[s.f]] else []) + Keep(F[n.f..], OffClass(n))
  {
    hide Keep, Remove;
    var n := Step(F, R, s).next;
    var rest := F[n.f..];
    assert rest == if n.f > s.f then F[s.f..][1..] else F[s.f..];
    forall x | x in rest ensures x in OffClass(s) <==> x in OffClass(n) {
      if F[s.f] in s.swapped { RemoveIn(s.swapped, F[s.f], x); }
      else if s.r < |R| && R[s.r] in s.swapped { RemoveIn(s.swapped, R[s.r], x); }
      else if F[s.f] in s.ignored { RemoveIn(s.ignored, F[s.f], x); }
      else if F[s.f] in s.fwd { RemoveIn(s.fwd, F[s.f], x); }
    }
    KeepSame(rest, OffClass(s), OffClass(n));
    KeepHead(F[s.f..], OffClass(s));
  }

  lemma KeepReflection(F: seq<Name>, R: seq<Name>, s: Cursor)
    requires InRange(F, R, s) && s.f < |F| && NoRepeats(R) && Step(F, R, s).Continue?
    ensures var n := Step(F, R, s).next;
      Keep(R[s.r..], OffReflection(s)) ==
      (if n.f > s.f && n.r > s.r then [F[s.f]] else []) + Keep(R[n.r..], OffReflection(n))
  {
    hide Keep, Remove;
    var n := Step(F, R, s).next;
    var rest := R[n.r..];
    assert rest == if n.r > s.r then R[s.r..][1..] else R[s.r..];
    forall x | x in rest ensures x in OffReflection(s) <==> x in OffReflection(n) {
      if F[s.f] in s.swapped { RemoveIn(s.swapped, F[s.f], x); }
      else if s.r < |R| && R[s.r] in s.swapped { RemoveIn(s.swapped, R[s.r], x); }
      else if s.r < |R| && R[s.r] in s.back { RemoveIn(s.back, R[s.r], x); }
    }
    KeepSame(rest, OffReflection(s), OffReflection(n));
    if s.r < |R| { KeepHead(R[s.r..], OffReflection(s)); }
  }

  // One loop step keeps the two kept remainders equal, in both directions.
  lemma StepAligned(F: seq<Name>, R: seq<Name>, s: Cursor)
    requires InRange(F, R, s) && s.f < |F| && NoRepeats(F) && NoRepeats(R)
    requires Step(F, R, s).Continue?
    ensures Aligned(F, R, Step(F, R, s).next) <==> Aligned(F, R, s)
  {
    var n := Step(F, R, s).next;
    KeepClass(F, R, s);
    KeepReflection(F, R, s);
    var head := if n.f > s.f && n.r > s.r then [F[s.f]] else [];
    var a, b := Keep(F[n.f..], OffClass(n)), Keep(R[n.r..], OffReflection(n));
    assert a == (head + a)[|head|..] && b == (head + b)[|head|..];
  }

  lemma {:induction false} DrainedAll(rest: seq<Name>, back: seq<Name>)
    requires Drain(rest, back).1 == []
    ensures forall x :: x in rest ==> x in back
  {
    if rest == [] {
    } else {
      DrainedAll(rest[1..], Remove(back, rest[0]));
      forall x | x in rest[1..] ensures x in back { RemoveIn(back, rest[0], x); }
    }
  }

  lemma {:induction false} RunAligned(F: seq<Name>, R: seq<Name>, s: Cursor)
    requires InRange(F, R, s) && NoRepeats(F) && NoRepeats(R) && Run(F, R, s) == Passed
    ensures Aligned(F, R, s)
    decreases |F| + |R| - s.f - s.r
  {
    hide Keep, Remove, Drain;
    if s.f == |F| {
      DrainedAll(R[s.r..], s.back);
      KeptNone(F[s.f..], OffClass(s));
      KeptNone(R[s.r..], OffReflection(s));
    } else {
      RunAligned(F, R, Step(F, R, s).next);
      StepAligned(F, R, s);
    }
  }

  // ---- A swap of what already stands in order is refused ----

  // Every field from f to j is still listed as swapped, and the last is the next reflected one.
  ghost predicate Doomed(F: seq<Name>, R: seq<Name>, s: Cursor, j: nat)
    requires InRange(F, R, s)
  {
    && s.f <= j < |F| && s.r < |R| && R[s.r] == F[j]
    && forall k :: s.f <= k <= j ==> F[k] in s.swapped
  }

  lemma {:induction false} DoomedFails(F: seq<Name>, R: seq<Name>, s: Cursor, j: nat)
    requires InRange(F, R, s) && NoRepeats(F) && Doomed(F, R, s, j)
    ensures Run(F, R, s) != Passed
    decreases j - s.f
  {
    hide Remove, Finish;
    if s.f == j || F[s.f] !in R {
    } else {
      var n := Step(F, R, s).next;
      forall k | n.f <= k <= j ensures F[k] in n.swapped {
        RemoveIn(s.swapped, F[s.f], F[k]);
      }
      DoomedFails(F, R, n, j);
    }
  }

  // The run has not yet matched the kept field before i and r.
  ghost predicate Before(F: seq<Name>, R: seq<Name>, s: Cursor, i: nat, j: nat, r: nat)
    requires InRange(F, R, s) && i <= j < |F| && r < |R|
  {
    && s.f < i && s.r < r && F[i - 1] == R[r - 1]
    && F[i - 1] !in s.ignored && F[i - 1] !in s.swapped && F[i - 1] !in s.back && F[i - 1] !in s.fwd
    && forall k :: i <= k <= j ==> F[k] in s.swapped && F[k] !in R[..r]
  }

  lemma BeforeStep(F: seq<Name>, R: seq<Name>, s: Cursor, i: nat, j: nat, r: nat)
    requires InRange(F, R, s) && i <= j < |F| && r < |R| && R[r] == F[j]
    requires NoRepeats(F) && NoRepeats(R) && Before(F, R, s, i, j, r)
    requires Step(F, R, s).Continue?
    ensures var n := Step(F, R, s).next; Before(F, R, n, i, j, r) || Doomed(F, R, n, j)
  {
    hide Remove;
    var n := Step(F, R, s).next;
    forall k | i <= k <= j ensures F[k] in n.swapped {
      if F[s.f] in s.swapped { RemoveIn(s.swapped, F[s.f], F[k]); }
      else if s.r < |R| && R[s.r] in s.swapped {
        assert R[s.r] in R[..r];
        RemoveIn(s.swapped, R[s.r], F[k]);
      }
    }
    var x := F[i - 1];
    if F[s.f] in s.swapped { RemoveIn(s.swapped, F[s.f], x); }
    else if R[s.r] in s.swapped { RemoveIn(s.swapped, R[s.r], x); }
    else if F[s.f] in s.ignored { RemoveIn(s.ignored, F[s.f], x); }
    else if R[s.r] in s.back { RemoveIn(s.back, R[s.r], x); }
    else if F[s.f] in s.fwd { RemoveIn(s.fwd, F[s.f], x); }
  }

  lemma {:induction false} BeforeFails(F: seq<Name>, R: seq<Name>, s: Cursor, i: nat, j: nat, r: nat)
    requires InRange(F, R, s) && i <= j < |F| && r < |R| && R[r] == F[j]
    requires NoRepeats(F) && NoRepeats(R) && Before(F, R, s, i, j, r)
    ensures Run(F, R, s) != Passed
    decreases |F| + |R| - s.f - s.r
  {
    hide Step, Remove, Finish;
    if Step(F, R, s).Continue? {
      var n := Step(F, R, s).next;
      BeforeStep(F, R, s, i, j, r);
      if Doomed(F, R, n, j) {
        DoomedFails(F, R, n, j);
      } else {
        BeforeFails(F, R, n, i, j, r);
      }
    } else {
      RunStops(F, R, s);
    }
  }

  lemma RunStops(F: seq<Name>, R: seq<Name>, s: Cursor)
    requires InRange(F, R, s) && s.f < |F| && Step(F, R, s).Stop?
    ensures Run(F, R, s) == Step(F, R, s).why != Passed
  {
  }

  // ---- Completeness ----

  // Where a name may still occur, by the list it is on. S holds the swaps of the whole run.
  ghost predicate Placed(F: seq<Name>, R: seq<Name>, S: seq<Name>, s: Cursor, x: Name)
    requires InRange(F, R, s)
  {
    && (x in s.ignored ==> x in F[s.f..] && x !in R)
    && (x in s.swapped ==> x in F[s.f..] && x in R[s.r..] && x in S)
    && (x in s.back ==> x !in F[s.f..] && x in R[s.r..])
    && (x in s.fwd ==> x in F[s.f..] && x !in R[s.r..] && x in R)
    && (x in s.passed ==> x !in R)
    && (x in F[s.f..] && x in S ==> x in s.swapped || x in s.fwd)
  }

  ghost predicate Good(F: seq<Name>, R: seq<Name>, S: seq<Name>, s: Cursor) {
    && NoRepeats(F) && NoRepeats(R) && InRange(F, R, s)
    && NoRepeats(s.ignored) && NoRepeats(s.swapped) && NoRepeats(s.back) && NoRepeats(s.fwd)
    && (forall x :: Placed(F, R, S, s, x))
    && Aligned(F, R, s)
  }

  lemma Behind(s: seq<Name>, i: nat, x: Name)
    requires i < |s| && NoRepeats(s)
    ensures s[i] in s[i..] && s[i] in s
    ensures x in s[i + 1..] <==> x in s[i..] && x != s[i]
    ensures x in s[i..] ==> x in s
  {
    assert s[i..] == [s[i]] + s[i + 1..];
  }

  lemma PlacedStep(F: seq<Name>, R: seq<Name>, S: seq<Name>, s: Cursor, x: Name)
    requires InRange(F, R, s) && s.f < |F| && NoRepeats(F) && NoRepeats(R)
    requires NoRepeats(s.ignored) && NoRepeats(s.swapped) && NoRepeats(s.back) && NoRepeats(s.fwd)
    requires Placed(F, R, S, s, x) && Placed(F, R, S, s, F[s.f])
    requires s.r < |R| ==> Placed(F, R, S, s, R[s.r])
    requires Step(F, R, s).Continue?
    ensures Placed(F, R, S, Step(F, R, s).next, x)
  {
    hide Remove, NoRepeats;
    Behind(F, s.f, x);
    if s.r < |R| { Behind(R, s.r, x); }
    if F[s.f] in s.swapped {
      RemoveIn(s.swapped, F[s.f], x);
      RemoveDistinct(s.swapped, F[s.f]);
    } else if s.r < |R| && R[s.r] in s.swapped {
      RemoveIn(s.swapped, R[s.r], x);
      RemoveDistinct(s.swapped, R[s.r]);
    } else if F[s.f] in s.ignored {
      RemoveIn(s.ignored, F[s.f], x);
      RemoveDistinct(s.ignored, F[s.f]);
    } else if s.r < |R| && R[s.r] in s.back {
      RemoveIn(s.back, R[s.r], x);
      RemoveDistinct(s.back, R[s.r]);
    } else if F[s.f] in s.fwd {
      RemoveIn(s.fwd, F[s.f], x);
      RemoveDistinct(s.fwd, F[s.f]);
    }
  }

  lemma DistinctStep(F: seq<Name>, R: seq<Name>, S: seq<Name>, s: Cursor)
    requires Good(F, R, S, s) && s.f < |F| && Step(F, R, s).Continue?
    ensures var n := Step(F, R, s).next;
      NoRepeats(n.ignored) && NoRepeats(n.swapped) && NoRepeats(n.back) && NoRepeats(n.fwd)
  {
    hide Remove, Aligned;
    assert Placed(F, R, S, s, F[s.f]);
    Behind(F, s.f, F[s.f]);
    if s.r < |R| {
      Behind(R, s.r, R[s.r]);
      assert Placed(F, R, S, s, R[s.r]);
    }
    if F[s.f] in s.swapped { RemoveDistinct(s.swapped, F[s.f]); }
    else if s.r < |R| && R[s.r] in s.swapped { RemoveDistinct(s.swapped, R[s.r]); }
    else if F[s.f] in s.ignored { RemoveDistinct(s.ignored, F[s.f]); }
    else if s.r < |R| && R[s.r] in s.back { RemoveDistinct(s.back, R[s.r]); }
    else if F[s.f] in s.fwd { RemoveDistinct(s.fwd, F[s.f]); }
  }

  lemma HeadsAgree(F: seq<Name>, R: seq<Name>, s: Cursor)
    requires InRange(F, R, s) && s.f < |F| && s.r < |R| && Aligned(F, R, s)
    ensures F[s.f] in OffClass(s) || R[s.r] in OffReflection(s) || F[s.f] == R[s.r]
  {
    KeepHead(F[s.f..], OffClass(s));
    KeepHead(R[s.r..], OffReflection(s));
    if F[s.f] !in OffClass(s) && R[s.r] !in OffReflection(s) {
      assert F[s.f] == Keep(F[s.f..], OffClass(s))[0] == Keep(R[s.r..], OffReflection(s))[0] == R[s.r];
    }
  }

  // With the lists describing the difference, only the in-order check on a swap can stop
  // the loop.
  lemma OnlyInOrderStops(F: seq<Name>, R: seq<Name>, S: seq<Name>, s: Cursor)
    requires Good(F, R, S, s) && s.f < |F| && Step(F, R, s).Stop?
    ensures Step(F, R, s) == Stop(SwapInOrder) && Doomed(F, R, s, s.f)
  {
    hide Remove, Keep, NoRepeats;
    assert Placed(F, R, S, s, F[s.f]);
    Behind(F, s.f, F[s.f]);
    KeepHead(F[s.f..], OffClass(s));
    if s.r < |R| {
      Behind(R, s.r, R[s.r]);
      assert Placed(F, R, S, s, R[s.r]);
      HeadsAgree(F, R, s);
    } else {
      KeptNone(R[s.r..], OffReflection(s));
    }
  }

  lemma GoodStep(F: seq<Name>, R: seq<Name>, S: seq<Name>, s: Cursor)
    requires Good(F, R, S, s) && s.f < |F| && Step(F, R, s).Continue?
    ensures Good(F, R, S, Step(F, R, s).next)
  {
    hide Step, Keep, NoRepeats, Placed, Aligned;
    var n := Step(F, R, s).next;
    forall x: Name ensures Placed(F, R, S, n, x) {
      PlacedStep(F, R, S, s, x);
    }
    DistinctStep(F, R, S, s);
    StepAligned(F, R, s);
  }

  lemma First(s: seq<Name>)
    ensures s == [] || s[0] in s
  {
  }

  lemma {:induction false} DrainPays(rest: seq<Name>, back: seq<Name>)
    requires NoRepeats(rest) && NoRepeats(back)
    requires forall x :: x in rest <==> x in back
    ensures Drain(rest, back) == ([], [])
  {
    if rest == [] {
      First(back);
    } else {
      var b := Remove(back, rest[0]);
      RemoveDistinct(back, rest[0]);
      forall x ensures x in rest[1..] <==> x in b {
        RemoveIn(back, rest[0], x);
        Behind(rest, 0, x);
        assert rest[0..] == rest;
      }
      DrainPays(rest[1..], b);
    }
  }

  lemma GoodEnds(F: seq<Name>, R: seq<Name>, S: seq<Name>, s: Cursor)
    requires Good(F, R, S, s) && s.f == |F|
    ensures Finish(R, s) == Passed
  {
    hide Remove, Keep, Drain;
    assert F[s.f..] == [];
    First(s.ignored);
    First(s.swapped);
    First(s.fwd);
    forall x: Name ensures x !in s.ignored && x !in s.swapped && x !in s.fwd {
      assert Placed(F, R, S, s, x);
    }
    KeptNone(F[s.f..], OffClass(s));
    KeptNone(R[s.r..], OffReflection(s));
    forall x ensures x in R[s.r..] <==> x in s.back {
      assert Placed(F, R, S, s, x);
    }
    DrainPays(R[s.r..], s.back);
  }

  // A step off a matched field can only be followed by a doomed run where the whole lists
  // hold a needless swap; a step elsewhere, only where one was doomed already.
  lemma DoomAppears(F: seq<Name>, R: seq<Name>, S: seq<Name>, s: Cursor, j: nat)
    requires Good(F, R, S, s) && s.f < |F| && Step(F, R, s).Continue?
    requires Doomed(F, R, Step(F, R, s).next, j)
    ensures Doomed(F, R, s, j) || NeedlessSwap(F, R, S)
  {
    hide Remove, Aligned, Keep;
    var n := Step(F, R, s).next;
    assert Placed(F, R, S, s, F[s.f]);
    Behind(F, s.f, F[s.f]);
    if F[s.f] in s.swapped {
      forall k | s.f <= k <= j ensures F[k] in s.swapped { RemoveIn(s.swapped, F[s.f], F[k]); }
    } else if s.r < |R| && R[s.r] in s.swapped {
      RemoveIn(s.swapped, R[s.r], F[s.f]);
    } else if n.f > s.f && n.r > s.r {
      forall k | n.f <= k <= j ensures F[k] in S && F[k] !in R[..n.r] {
        assert Placed(F, R, S, s, F[k]);
        assert F[k] in R[s.r..] && F[k] != R[s.r];
      }
      assert SwapRun(F, R, S, n.f, j, n.r);
    }
  }

  lemma {:induction false} Completes(F: seq<Name>, R: seq<Name>, S: seq<Name>, s: Cursor)
    requires Good(F, R, S, s)
    ensures Run(F, R, s) == Passed || Run(F, R, s) == SwapInOrder
    ensures !NeedlessSwap(F, R, S) && (forall j: nat :: !Doomed(F, R, s, j)) ==> Run(F, R, s) == Passed
    decreases |F| + |R| - s.f - s.r
  {
    hide Step, Finish, Placed, Aligned, NoRepeats, Doomed, NeedlessSwap;
    if s.f == |F| {
      GoodEnds(F, R, S, s);
    } else if Step(F, R, s).Stop? {
      OnlyInOrderStops(F, R, S, s);
    } else {
      var n := Step(F, R, s).next;
      GoodStep(F, R, S, s);
      Completes(F, R, S, n);
      if !NeedlessSwap(F, R, S) && (forall j: nat :: !Doomed(F, R, s, j)) {
        forall j: nat ensures !Doomed(F, R, n, j) {
          if Doomed(F, R, n, j) { DoomAppears(F, R, S, s, j); }
        }
      }
    }
  }

  // ---- The verdict, exactly ----

  lemma DescribedStartsGood(F: seq<Name>, R: seq<Name>, ignored: seq<Name>, swapped: seq<Name>)
    requires NoRepeats(F) && Described(F, R, ignored, swapped)
    ensures Good(F, R, swapped, Start(ignored, swapped))
  {
    hide Keep;
    var s := Start(ignored, swapped);
    assert F[0..] == F && R[0..] == R;
    assert OffClass(s) == Names(ignored) + Names(swapped);
    assert OffReflection(s) == Names(swapped);
    forall x ensures Placed(F, R, swapped, s, x) {
    }
  }

  lemma AcceptedIsDescribed(F: seq<Name>, R: seq<Name>, ignored: seq<Name>, swapped: seq<Name>)
    requires NoRepeats(F) && Check(F, R, ignored, swapped) == Passed
    ensures Described(F, R, ignored, swapped)
  {
    hide Run, Keep, NoRepeats;
    var s := Start(ignored, swapped);
    AcceptedIsSound(F, R, ignored, swapped);
    forall x: Name
      ensures multiset(R)[x] + multiset(ignored)[x] <= 1 && multiset(swapped)[x] <= 1
      ensures x in ignored ==> x in F && x !in R
      ensures x in swapped ==> x in F
    {
      DistinctOnce(F, x);
      assert multiset(F)[x] == multiset(R)[x] + multiset(ignored)[x];
      assert multiset(swapped)[x] <= multiset(F)[x];
      assert x in ignored <==> multiset(ignored)[x] > 0;
      assert x in R <==> multiset(R)[x] > 0;
      assert x in swapped <==> multiset(swapped)[x] > 0;
      assert x in F <==> multiset(F)[x] > 0;
    }
    OnceDistinct(R);
    OnceDistinct(ignored);
    OnceDistinct(swapped);
    RunAligned(F, R, s);
    assert F[0..] == F && R[0..] == R;
    assert OffClass(s) == Names(ignored) + Names(swapped);
    assert OffReflection(s) == Names(swapped);
  }

  lemma NeedlessSwapIsRefused(F: seq<Name>, R: seq<Name>, ignored: seq<Name>, swapped: seq<Name>)
    requires NoRepeats(F) && Described(F, R, ignored, swapped) && NeedlessSwap(F, R, swapped)
    ensures Check(F, R, ignored, swapped) != Passed
  {
    hide Run, Keep, NoRepeats;
    var s := Start(ignored, swapped);
    var i: nat, j: nat, r: nat :| SwapRun(F, R, swapped, i, j, r) && R[r] == F[j];
    if i == 0 {
      DoomedFails(F, R, s, j);
    } else {
      assert F[i - 1] in R;
      BeforeFails(F, R, s, i, j, r);
    }
  }

  lemma DoomedFromStart(F: seq<Name>, R: seq<Name>, ignored: seq<Name>, swapped: seq<Name>, j: nat)
    requires Doomed(F, R, Start(ignored, swapped), j)
    ensures NeedlessSwap(F, R, swapped)
  {
    assert SwapRun(F, R, swapped, 0, j, 0);
  }

  /** For a class without repeated field names the comparison passes if and only if the two
      lists describe the difference and no swap is needless; where they do describe it and
      some swap is needless, the in-order check is the assertion that stops the run. */
  lemma MatchIsExact(F: seq<Name>, R: seq<Name>, ignored: seq<Name>, swapped: seq<Name>)
    requires NoRepeats(F)
    ensures Check(F, R, ignored, swapped) == Passed
        <==> Described(F, R, ignored, swapped) && !NeedlessSwap(F, R, swapped)
    ensures Described(F, R, ignored, swapped) && NeedlessSwap(F, R, swapped)
        ==> Check(F, R, ignored, swapped) == SwapInOrder
  {
    hide Run, Described, NoRepeats, Good;
    var s := Start(ignored, swapped);
    if Check(F, R, ignored, swapped) == Passed {
      AcceptedIsDescribed(F, R, ignored, swapped);
    }
    if Described(F, R, ignored, swapped) {
      DescribedStartsGood(F, R, ignored, swapped);
      Completes(F, R, swapped, s);
      if NeedlessSwap(F, R, swapped) {
        NeedlessSwapIsRefused(F, R, ignored, swapped);
      } else {
        forall j: nat ensures !Doomed(F, R, s, j) {
          if Doomed(F, R, s, j) { DoomedFromStart(F, R, ignored, swapped, j); }
        }
      }
    }
  }

  // ---- Moving one field across a block ----

  lemma {:induction false} KeepConcat(a: seq<Name>, b: seq<Name>, out: set<Name>)
    ensures Keep(a + b, out) == Keep(a, out) + Keep(b, out)
  {
    if a == [] {
      assert a + b == b;
    } else {
      assert (a + b)[1..] == a[1..] + b;
      KeepConcat(a[1..], b, out);
    }
  }

  lemma KeepFour(P: seq<Name>, M: seq<Name>, N: seq<Name>, Q: seq<Name>, out: set<Name>)
    ensures Keep(P + M + N + Q, out) == Keep(P, out) + Keep(M, out) + Keep(N, out) + Keep(Q, out)
  {
    KeepConcat(P + M + N, Q, out);
    KeepConcat(P + M, N, out);
    KeepConcat(P, M, out);
  }

  // Two neighbouring blocks change places and exactly the names of one are listed as swapped.
  lemma BlockDescribed(P: seq<Name>, M: seq<Name>, N: seq<Name>, Q: seq<Name>, swapped: seq<Name>)
    requires NoRepeats(P + M + N + Q) && NoRepeats(swapped)
    requires Names(swapped) == Names(M) || Names(swapped) == Names(N) || Names(swapped) == Names(M + N)
    ensures Described(P + M + N + Q, P + N + M + Q, [], swapped)
  {
    var F, R := P + M + N + Q, P + N + M + Q;
    BlocksDistinct(P, M, N, Q);
    var out := Names(swapped);
    assert Names([]) + out == out;
    KeepFour(P, M, N, Q, out);
    KeepFour(P, N, M, Q, out);
    forall x | x in swapped ensures x in F && x in R { assert x in out; }
    assert Keep(M, out) == [] || Keep(N, out) == [] by {
      KeptNone(M, out);
      KeptNone(N, out);
    }
  }

  lemma BlocksDistinct(P: seq<Name>, M: seq<Name>, N: seq<Name>, Q: seq<Name>)
    requires NoRepeats(P + M + N + Q)
    ensures NoRepeats(P + N + M + Q)
  {
    var F, R := P + M + N + Q, P + N + M + Q;
    forall x ensures multiset(R)[x] <= 1 {
      DistinctOnce(F, x);
    }
    OnceDistinct(R);
  }

  // Listing one of the two blocks leaves no swap in order: the block it lists is met by
  // the other block's first name, or by what follows both.
  lemma OneBlockIsNeeded(P: seq<Name>, M: seq<Name>, N: seq<Name>, Q: seq<Name>, swapped: seq<Name>,
                         i: nat, j: nat, r: nat)
    requires NoRepeats(P + M + N + Q) && M != [] && N != []
    requires Names(swapped) == Names(M) || Names(swapped) == Names(N)
    requires SwapRun(P + M + N + Q, P + N + M + Q, swapped, i, j, r)
    ensures (P + N + M + Q)[r] != (P + M + N + Q)[j]
  {
    hide Names;
    var F, R := P + M + N + Q, P + N + M + Q;
    BlocksDistinct(P, M, N, Q);
    ListedAt(P, M, N, Q, swapped, j);
    ListedAt(P, M, N, Q, swapped, i);
    if i > 0 {
      ListedAt(P, M, N, Q, swapped, i - 1);
      MovedTo(P, M, N, Q, i - 1, r - 1);
    }
    if R[r] == F[j] { MovedTo(P, M, N, Q, j, r); }
  }

  lemma ListedAt(P: seq<Name>, M: seq<Name>, N: seq<Name>, Q: seq<Name>, swapped: seq<Name>, k: nat)
    requires NoRepeats(P + M + N + Q) && k < |P + M + N + Q|
    ensures Names(swapped) == Names(M) ==>
      ((P + M + N + Q)[k] in swapped <==> |P| <= k < |P| + |M|)
    ensures Names(swapped) == Names(N) ==>
      ((P + M + N + Q)[k] in swapped <==> |P| + |M| <= k < |P| + |M| + |N|)
  {
    var F := P + M + N + Q;
    assert F[k] in swapped <==> F[k] in Names(swapped);
    assert F[k] in M <==> F[k] in Names(M);
    assert F[k] in N <==> F[k] in Names(N);
    assert F[k] in M <==> |P| <= k < |P| + |M| by { assert P + M + (N + Q) == F; BlockAt(P, M, N + Q, k); }
    assert F[k] in N <==> |P| + |M| <= k < |P| + |M| + |N| by { BlockAt(P + M, N, Q, k); }
  }

  lemma BlockAt(a: seq<Name>, b: seq<Name>, c: seq<Name>, k: nat)
    requires NoRepeats(a + b + c) && k < |a + b + c|
    ensures (a + b + c)[k] in b <==> |a| <= k < |a| + |b|
  {
    var s := a + b + c;
    if s[k] in b {
      var i :| 0 <= i < |b| && b[i] == s[k];
      assert s[|a| + i] == s[k];
    }
  }

  // Where a field of the class is reflected after the two blocks change places.
  lemma MovedTo(P: seq<Name>, M: seq<Name>, N: seq<Name>, Q: seq<Name>, k: nat, r: nat)
    requires NoRepeats(P + N + M + Q) && k < |P + M + N + Q| && r < |P + N + M + Q|
    requires (P + M + N + Q)[k] == (P + N + M + Q)[r]
    ensures r == if |P| <= k < |P| + |M| then k + |N|
                 else if |P| + |M| <= k < |P| + |M| + |N| then k - |M|
                 else k
  {
    var F, R := P + M + N + Q, P + N + M + Q;
    var t := if |P| <= k < |P| + |M| then k + |N|
             else if |P| + |M| <= k < |P| + |M| + |N| then k - |M|
             else k;
    assert R[t] == F[k];
  }

  lemma BothBlocksAreNeedless(P: seq<Name>, M: seq<Name>, N: seq<Name>, Q: seq<Name>, swapped: seq<Name>)
    requires NoRepeats(P + M + N + Q) && M != [] && N != []
    requires Names(swapped) == Names(M + N)
    ensures NeedlessSwap(P + M + N + Q, P + N + M + Q, swapped)
  {
    var F, R := P + M + N + Q, P + N + M + Q;
    var i, j := |P|, |P| + |M|;
    assert P + M + N + Q == P + (M + N) + Q;
    forall k | i <= k <= j ensures F[k] in swapped && F[k] !in R[..i] {
      assert F[k] in M + N && F[k] in Names(M + N);
      assert R[..i] == F[..i];
    }
    if i > 0 {
      BlockAt(P, M + N, Q, i - 1);
      assert F[i - 1] in swapped <==> F[i - 1] in Names(swapped);
    }
    assert SwapRun(F, R, swapped, i, j, i) && R[i] == F[j];
  }

  /** When two neighbouring blocks of fields are reflected the other way round, listing the
      names of either block is accepted, in any order, and listing both is refused. With a
      block of one field this is the documented rule for moving a field. */
  lemma MovedBlock(P: seq<Name>, M: seq<Name>, N: seq<Name>, Q: seq<Name>, swapped: seq<Name>)
    requires NoRepeats(P + M + N + Q) && NoRepeats(swapped) && M != [] && N != []
    ensures Names(swapped) == Names(M) || Names(swapped) == Names(N) ==>
      Check(P + M + N + Q, P + N + M + Q, [], swapped) == Passed
    ensures Names(swapped) == Names(M + N) ==>
      Check(P + M + N + Q, P + N + M + Q, [], swapped) == SwapInOrder
  {
    hide Run, Described, NoRepeats, Names;
    var F, R := P + M + N + Q, P + N + M + Q;
    MatchIsExact(F, R, [], swapped);
    if Names(swapped) == Names(M) || Names(swapped) == Names(N) {
      BlockDescribed(P, M, N, Q, swapped);
      forall i: nat, j: nat, r: nat | SwapRun(F, R, swapped, i, j, r) ensures R[r] != F[j] {
        OneBlockIsNeeded(P, M, N, Q, swapped, i, j, r);
      }
    }
    if Names(swapped) == Names(M + N) {
      BlockDescribed(P, M, N, Q, swapped);
      BothBlocksAreNeedless(P, M, N, Q, swapped);
    }
  }

  // ---- Each complaint by example ----

  lemma StepTo(F: seq<Name>, R: seq<Name>, s: Cursor, t: Cursor)
    requires InRange(F, R, s) && s.f < |F| && Step(F, R, s) == Continue(t)
    ensures Run(F, R, s) == Run(F, R, t)
  {
  }

  /** The complaints of the matching loop: a swapped field that is not reflected or stands in
      its place, an ignored field that stands in its place or comes later, a wrong field. */
  lemma LoopComplaints(a: Name, b: Name, c: Name)
    requires a != b && b != c && a != c
    ensures Check([a], [b], [], [a]) == SwapNotReflected
    ensures Check([a], [a], [], [a]) == SwapInOrder
    ensures Check([a], [a], [a], []) == IgnoreInOrder
    ensures Check([a, b, c], [b, a, c], [a], []) == IgnoreShouldBeSwap
    ensures Check([a, b, c], [b, a], [a, c], []) == IgnoreShouldBeSwap
    ensures Check([a, b], [b, a], [], []) == FieldMismatch
  {
    LateIgnore(a, b, c);
    var F, R := [a, b, c], [b, a, c];
    var s := Start([a], []);
    assert Remove([a], a) == [];
    StepTo(F, R, s, Cursor(1, 0, [], [], [a], [], []));
    StepTo(F, R, Cursor(1, 0, [], [], [a], [], []), Cursor(2, 1, [], [], [a], [], []));
  }

  lemma LateIgnore(a: Name, b: Name, c: Name)
    requires a != b && b != c && a != c
    ensures Check([a, b, c], [b, a], [a, c], []) == IgnoreShouldBeSwap
  {
    var F, R := [a, b, c], [b, a];
    assert Remove([a, c], a) == [c] by { assert [a, c][1..] == [c]; }
    StepTo(F, R, Start([a, c], []), Cursor(1, 0, [c], [], [a], [], []));
    StepTo(F, R, Cursor(1, 0, [c], [], [a], [], []), Cursor(2, 1, [c], [], [a], [], []));
  }

  /** The complaints once the class is exhausted, in their order: an ignored name that is no
      field, a reflected name that is no field, a swapped name that is neither, and one that is
      reflected but no field. */
  lemma FinalComplaints(a: Name, b: Name, z: Name)
    requires a != b && b != z && a != z
    ensures Check([a], [a, b], [z], [z]) == ErroneousIgnores
    ensures Check([a], [a, b], [], [z]) == UnknownReflected
    ensures Check([a], [a], [], [z]) == ErroneousSwaps
    ensures Check([a], [z, a], [], [z]) == SwapNotInClass
  {
    AfterOne(a, [b], [z], [z]);
    AfterOne(a, [b], [], [z]);
    AfterOne(a, [], [], [z]);
    assert [a] + [b] == [a, b] && [a] + [] == [a];
    assert Drain([b], []).1 == [b] + Drain([b][1..], []).1;
    SwapOfNoField(a, z);
  }

  lemma SwapOfNoField(a: Name, z: Name)
    requires a != z
    ensures Check([a], [z, a], [], [z]) == SwapNotInClass
  {
    var F, R := [a], [z, a];
    assert Remove([z], z) == [];
    StepTo(F, R, Start([], [z]), Cursor(0, 1, [], [], [], [], [z]));
    StepTo(F, R, Cursor(0, 1, [], [], [], [], [z]), Cursor(1, 2, [], [], [], [], [z]));
    assert R[2..] == [];
  }

  lemma AfterOne(a: Name, rest: seq<Name>, ignored: seq<Name>, swapped: seq<Name>)
    requires a !in ignored && a !in swapped
    ensures Check([a], [a] + rest, ignored, swapped) == Finish([a] + rest, Cursor(1, 1, ignored, swapped, [], [], []))
    ensures ([a] + rest)[1..] == rest
  {
    StepTo([a], [a] + rest, Start(ignored, swapped), Cursor(1, 1, ignored, swapped, [], [], []));
  }
}
