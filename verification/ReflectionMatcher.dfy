// The comparison of a class's declared fields with its reflected fields, as the matching
// loop of tools/validate_reflection.py performs it.
module ReflectionMatcher {
  type Name = string

  // The assertion of the script that stops the run, or Passed.
  datatype Verdict =
    | Passed
    | SwapNotReflected
    | SwapInOrder
    | IgnoreShouldBeSwap
    | IgnoreInOrder
    | FieldMismatch
    | ErroneousIgnores
    | UnknownReflected
    | ErroneousSwaps
    | SwapNeverProvided
    | SwapNotInClass

  // f and r are f_index and rf_index; ignored and swapped are what is left of the
  // reflection's own lists; passed holds the fields already ignored.
  datatype Cursor = Cursor(f: nat, r: nat, ignored: seq<Name>, swapped: seq<Name>,
                           passed: seq<Name>, back: seq<Name>, fwd: seq<Name>)

  datatype Outcome = Continue(next: Cursor) | Stop(why: Verdict)

  // list.remove: the first occurrence goes.
  function Remove(s: seq<Name>, x: Name): (t: seq<Name>)
    requires x in s
  {
    if s[0] == x then s[1..] else [s[0]] + Remove(s[1..], x)
  }

  predicate NoRepeats(s: seq<Name>) {
    forall i, j :: 0 <= i < j < |s| ==> s[i] != s[j]
  }

  predicate InRange(F: seq<Name>, R: seq<Name>, s: Cursor) {
    s.f <= |F| && s.r <= |R|
  }

  // One pass through the body of the matching loop.
  function Step(F: seq<Name>, R: seq<Name>, s: Cursor): (o: Outcome)
    requires InRange(F, R, s) && s.f < |F|
    ensures o.Continue? ==> InRange(F, R, o.next) && s.f + s.r < o.next.f + o.next.r
  {
    var field := F[s.f];
    if field in s.swapped then
      if field !in R then Stop(SwapNotReflected)
      else if s.r < |R| && R[s.r] == field then Stop(SwapInOrder)
      else Continue(s.(f := s.f + 1, swapped := Remove(s.swapped, field), back := s.back + [field]))
    else if s.r < |R| && R[s.r] in s.swapped then
      Continue(s.(r := s.r + 1, swapped := Remove(s.swapped, R[s.r]), fwd := s.fwd + [R[s.r]]))
    else if s.r < |R| && R[s.r] in s.passed then Stop(IgnoreShouldBeSwap)
    else if field in s.ignored then
      if s.r < |R| && R[s.r] == field then Stop(IgnoreInOrder)
      else Continue(s.(f := s.f + 1, ignored := Remove(s.ignored, field), passed := s.passed + [field]))
    else if s.r < |R| && R[s.r] in s.back then
      Continue(s.(r := s.r + 1, back := Remove(s.back, R[s.r])))
    else if field in s.fwd then
      Continue(s.(f := s.f + 1, fwd := Remove(s.fwd, field)))
    else if s.r < |R| && R[s.r] == field then
      Continue(s.(f := s.f + 1, r := s.r + 1))
    else Stop(FieldMismatch)
  }

  // The reflected fields left over once the class is exhausted: those still owed by a
  // back swap are paid, the others are unknown.
  function Drain(rest: seq<Name>, back: seq<Name>): (d: (seq<Name>, seq<Name>)) {
    if rest == [] then (back, [])
    else if rest[0] in back then Drain(rest[1..], Remove(back, rest[0]))
    else var (b, unused) := Drain(rest[1..], back); (b, [rest[0]] + unused)
  }

  function Finish(R: seq<Name>, s: Cursor): (v: Verdict)
    requires s.r <= |R|
  {
    var (back, unused) := Drain(R[s.r..], s.back);
    if s.ignored != [] then ErroneousIgnores
    else if unused != [] then UnknownReflected
    else if s.swapped != [] then ErroneousSwaps
    else if back != [] then SwapNeverProvided
    else if s.fwd != [] then SwapNotInClass
    else Passed
  }

  function Run(F: seq<Name>, R: seq<Name>, s: Cursor): (v: Verdict)
    requires InRange(F, R, s)
    decreases |F| + |R| - s.f - s.r
  {
    if s.f == |F| then Finish(R, s)
    else match Step(F, R, s)
      case Stop(why) => why
      case Continue(next) => Run(F, R, next)
  }

  function Start(ignored: seq<Name>, swapped: seq<Name>): (s: Cursor) {
    Cursor(0, 0, ignored, swapped, [], [], [])
  }

  function Check(F: seq<Name>, R: seq<Name>, ignored: seq<Name>, swapped: seq<Name>): (v: Verdict) {
    Run(F, R, Start(ignored, swapped))
  }

  // ---- The loops of the script ----

  method DrainRest(R: seq<Name>, start: nat, owed: seq<Name>) returns (back: seq<Name>, unused: seq<Name>)
    requires start <= |R|
    ensures (back, unused) == Drain(R[start..], owed)
  {
    back, unused := owed, [];
    assert [] + Drain(R[start..], owed).1 == Drain(R[start..], owed).1;
    var r := start;
    while r < |R|
      invariant start <= r <= |R|
      invariant Drain(R[start..], owed) == (Drain(R[r..], back).0, unused + Drain(R[r..], back).1)
    {
      assert R[r..][1..] == R[r + 1..];
      if R[r] in back {
        back := Remove(back, R[r]);
      } else {
        ghost var rest := Drain(R[r + 1..], back).1;
        assert unused + ([R[r]] + rest) == (unused + [R[r]]) + rest;
        unused := unused + [R[r]];
      }
      r := r + 1;
    }
    assert R[r..] == [] && unused + [] == unused;
  }

  /** The whole comparison. What its verdict means is MatchIsExact and AcceptedIsSound. */
  method Match(F: seq<Name>, R: seq<Name>, ignoredNames: seq<Name>, swappedNames: seq<Name>) returns (v: Verdict)
    ensures v == Check(F, R, ignoredNames, swappedNames)
  {
    hide Remove, Drain, NoRepeats;
    var f, r := 0, 0;
    var ignored, swapped := ignoredNames, swappedNames;
    var passed: seq<Name>, back: seq<Name>, fwd: seq<Name> := [], [], [];
    while f < |F|
      invariant f <= |F| && r <= |R|
      invariant Run(F, R, Cursor(f, r, ignored, swapped, passed, back, fwd))
             == Check(F, R, ignoredNames, swappedNames)
      decreases |F| + |R| - f - r
    {
      var field := F[f];
      if field in swapped {
        swapped := Remove(swapped, field);
        back := back + [field];
        if field !in R { return SwapNotReflected; }
        if r < |R| && R[r] == field { return SwapInOrder; }
        f := f + 1;
        continue;
      }
      if r < |R| && R[r] in swapped {
        swapped := Remove(swapped, R[r]);
        fwd := fwd + [R[r]];
        r := r + 1;
        continue;
      }
      if r < |R| && R[r] in passed { return IgnoreShouldBeSwap; }
      if field in ignored {
        ignored := Remove(ignored, field);
        passed := passed + [field];
        if r < |R| && R[r] == field { return IgnoreInOrder; }
        f := f + 1;
        continue;
      }
      if r < |R| && R[r] in back {
        back := Remove(back, R[r]);
        r := r + 1;
      } else if field in fwd {
        fwd := Remove(fwd, field);
        f := f + 1;
      } else {
        if r == |R| || R[r] != field { return FieldMismatch; }
        f, r := f + 1, r + 1;
      }
    }
    var unused: seq<Name>;
    if ignored != [] { return ErroneousIgnores; }
    back, unused := DrainRest(R, r, back);
    if unused != [] { return UnknownReflected; }
    if swapped != [] { return ErroneousSwaps; }
    if back != [] { return SwapNeverProvided; }
    if fwd != [] { return SwapNotInClass; }
    v := Passed;
  }
}
