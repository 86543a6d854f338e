// The reflections of a file, gathered macro by macro, as class Reflections of
// tools/validate_reflection.py does.
module ReflectionStore {
  import opened Options
  import opened ReflectionMatcher
  import opened ReflectionProofs

  datatype Reflection = Reflection(fields: seq<Name>, ignored: seq<Name>, swapped: seq<Name>)

  // Done, or what stops the script: one of its assertions, or a base it cannot look up.
  datatype Result = Done | Refused | NoSuchBase

  ghost predicate Tidy(r: Reflection) {
    && NoRepeats(r.fields) && NoRepeats(r.ignored) && NoRepeats(r.swapped)
    && forall x :: x in r.ignored ==> x !in r.swapped
  }

  ghost predicate AllTidy(classes: map<Name, Reflection>) {
    forall c :: c in classes ==> Tidy(classes[c])
  }

  function Entry(classes: map<Name, Reflection>, c: Name): (r: Reflection) {
    if c in classes then classes[c] else Reflection([], [], [])
  }

  lemma Snoc(s: seq<Name>, x: Name)
    ensures NoRepeats(s + [x]) <==> NoRepeats(s) && x !in s
  {
    var t := s + [x];
    if x in s {
      var i :| 0 <= i < |s| && s[i] == x;
      assert t[i] == t[|s|];
    }
    if NoRepeats(t) {
      forall i, j | 0 <= i < j < |s| ensures s[i] != s[j] { assert t[i] != t[j]; }
    }
  }

  class Reflections {
    var classes: map<Name, Reflection>

    constructor ()
      ensures classes == map[]
    {
      classes := map[];
    }

    method FindOrAdd(c: Name)
      requires AllTidy(classes)
      modifies this
      ensures AllTidy(classes) && classes == old(classes)[c := Entry(old(classes), c)]
    {
      if c !in classes { classes := classes[c := Reflection([], [], [])]; }
    }

    // Accepted exactly when the field is new to the class.
    method AddField(c: Name, field: Name) returns (r: Result)
      requires AllTidy(classes)
      modifies this
      ensures AllTidy(classes)
      ensures var e := Entry(old(classes), c);
        && r == (if field in e.fields then Refused else Done)
        && classes == old(classes)[c := if r.Done? then e.(fields := e.fields + [field]) else e]
    {
      FindOrAdd(c);
      if field in classes[c].fields { return Refused; }
      Snoc(classes[c].fields, field);
      classes := classes[c := classes[c].(fields := classes[c].fields + [field])];
      r := Done;
    }

    // The fields of one macro, in order: all of them, or none repeats.
    method AddEach(c: Name, fields: seq<Name>) returns (r: Result)
      requires AllTidy(classes)
      modifies this
      ensures AllTidy(classes) && classes - {c} == old(classes) - {c}
      ensures var e := Entry(old(classes), c);
        && r == (if fields == [] || NoRepeats(e.fields + fields) then Done else Refused)
        && (r.Done? ==> classes == With(old(classes), c, fields))
    {
      hide NoRepeats, AllTidy, With;
      ghost var e := Entry(classes, c);
      WithNothing(classes, c);
      assert fields[..0] == [];
      for i := 0 to |fields|
        invariant AllTidy(classes) && classes == With(old(classes), c, fields[..i])
        invariant i > 0 ==> NoRepeats(e.fields + fields[..i])
      {
        EntryTidy(old(classes), c);
        OneMoreField(e.fields, fields, i);
        OneMoreWith(old(classes), c, fields, i);
        r := AddField(c, fields[i]);
        if r.Refused? { return; }
      }
      assert fields[..|fields|] == fields;
      WithElsewhere(old(classes), c, fields);
      r := Done;
    }

    // add_fields: with a base, the base's own fields follow, taken from its entry.
    method AddFields(c: Name, fields: seq<Name>, base: Option<Name>) returns (r: Result)
      requires AllTidy(classes)
      modifies this
      ensures AllTidy(classes) && classes - {c} == old(classes) - {c}
      ensures r == Gather(old(classes), c, fields, base)
      ensures r.Done? ==> classes == Gathered(old(classes), c, fields, base)
    {
      hide NoRepeats, AllTidy;
      r := AddEach(c, fields);
      if r != Done { return; }
      if HasBase(base) {
        if base.value !in classes { return NoSuchBase; }
        r := AddEach(c, classes[base.value].fields);
        if r != Done { return; }
      }
      FindOrAdd(c);
    }

    // One macro as read meets it: a base that has its own entry is dropped first.
    method AddMacro(c: Name, fields: seq<Name>, base: Option<Name>) returns (r: Result)
      requires AllTidy(classes)
      modifies this
      ensures AllTidy(classes) && classes - {c} == old(classes) - {c}
      ensures r.Done? <==> NewFields(old(classes), c, fields) && (HasBase(base) ==> base.value in old(classes))
      ensures r.Done? ==> classes == Gathered(old(classes), c, fields, None)
    {
      var merged := base;
      if base.Some? && base.value in classes { merged := None; }
      MergeNeverSucceeds(classes, c, fields, merged);
      r := AddFields(c, fields, merged);
    }

    // The names after an ignore or a swap mark.
    method AddIgnoreSwaps(c: Name, names: seq<Name>, ignore: bool) returns (r: Result)
      requires AllTidy(classes)
      modifies this
      ensures AllTidy(classes) && classes - {c} == old(classes) - {c}
      ensures var e := Entry(old(classes), c);
        r.Done? && names != [] ==>
          classes == old(classes)[c := if ignore then e.(ignored := e.ignored + names) else e.(swapped := e.swapped + names)]
      ensures r.Done? <==> names == [] || Allowed(Entry(old(classes), c), names, ignore)
    {
      hide NoRepeats, AllTidy, Tidy, Allowed;
      ghost var e := Entry(classes, c);
      EntryTidy(classes, c);
      for i := 0 to |names|
        invariant AllTidy(classes)
        invariant i == 0 ==> classes == old(classes)
        invariant i > 0 ==> classes == old(classes)[c := Marked(e, names[..i], ignore)] && Allowed(e, names[..i], ignore)
      {
        FindOrAdd(c);
        var now := classes[c];
        assert now == Marked(e, names[..i], ignore);
        MarkOneMore(e, names, i, ignore);
        if names[i] in now.ignored || names[i] in now.swapped { return Refused; }
        MarkKeepsTidy(classes, c, names[i], ignore);
        classes := classes[c := Marked(now, [names[i]], ignore)];
      }
      assert names[..|names|] == names;
      r := Done;
    }
  }

  // The entry of c with more fields; an empty macro leaves no entry behind.
  function With(classes: map<Name, Reflection>, c: Name, fields: seq<Name>): (m: map<Name, Reflection>) {
    var e := Entry(classes, c);
    if fields == [] then classes else classes[c := e.(fields := e.fields + fields)]
  }

  lemma WithNothing(classes: map<Name, Reflection>, c: Name)
    ensures With(classes, c, []) == classes
  {
  }

  lemma WithElsewhere(classes: map<Name, Reflection>, c: Name, fields: seq<Name>)
    ensures With(classes, c, fields) - {c} == classes - {c}
  {
  }

  // The entry before and after one more field.
  lemma OneMoreWith(classes: map<Name, Reflection>, c: Name, fields: seq<Name>, i: nat)
    requires i < |fields|
    ensures var e, now := Entry(classes, c), With(classes, c, fields[..i]);
      && Entry(now, c) == e.(fields := e.fields + fields[..i])
      && With(classes, c, fields[..i + 1]) == now[c := Entry(now, c).(fields := e.fields + fields[..i] + [fields[i]])]
      && now - {c} == classes - {c}
  {
    var e := Entry(classes, c);
    assert fields[..i + 1] == fields[..i] + [fields[i]];
    assert e.fields + (fields[..i] + [fields[i]]) == e.fields + fields[..i] + [fields[i]];
    if i == 0 { assert fields[..0] == [] && e.fields + [] == e.fields; }
  }

  // It is new, or else the fields repeat as a whole.
  lemma OneMoreField(have: seq<Name>, fields: seq<Name>, i: nat)
    requires i < |fields| && NoRepeats(have) && (i > 0 ==> NoRepeats(have + fields[..i]))
    ensures if fields[i] in have + fields[..i] then !NoRepeats(have + fields) else NoRepeats(have + fields[..i + 1])
  {
    hide NoRepeats;
    var before := have + fields[..i];
    assert have + fields[..i + 1] == before + [fields[i]];
    assert i == 0 ==> before == have;
    Snoc(before, fields[i]);
    if fields[i] in before {
      assert (have + fields)[..|have| + i + 1] == before + [fields[i]];
      PrefixRepeats(have + fields, |have| + i + 1);
    }
  }

  predicate NewFields(classes: map<Name, Reflection>, c: Name, fields: seq<Name>) {
    fields == [] || NoRepeats(Entry(classes, c).fields + fields)
  }

  // An empty name is no base.
  predicate HasBase(base: Option<Name>) {
    base.Some? && base.value != ""
  }

  // The result of add_fields.
  function Gather(classes: map<Name, Reflection>, c: Name, fields: seq<Name>, base: Option<Name>): (r: Result) {
    var own := With(classes, c, fields);
    if !NewFields(classes, c, fields) then Refused
    else if !HasBase(base) then Done
    else if base.value !in own then NoSuchBase
    else if NewFields(own, c, own[base.value].fields) then Done else Refused
  }

  // The store after add_fields where it succeeds: at least an entry for the class.
  function Gathered(classes: map<Name, Reflection>, c: Name, fields: seq<Name>, base: Option<Name>): (m: map<Name, Reflection>) {
    var own := With(classes, c, fields);
    var all := if HasBase(base) && base.value in own then With(own, c, own[base.value].fields) else own;
    all[c := Entry(all, c)]
  }

  /** A base without an entry of its own is never merged: it cannot be looked up, or it is
      the class itself and repeats its fields. */
  lemma MergeNeverSucceeds(classes: map<Name, Reflection>, c: Name, fields: seq<Name>, base: Option<Name>)
    ensures HasBase(base) && base.value !in classes ==> Gather(classes, c, fields, base) != Done
  {
    var own := With(classes, c, fields);
    if HasBase(base) && base.value !in classes && base.value in own {
      var twice := Entry(own, c).fields + own[c].fields;
      assert twice[0] == twice[|fields|];
    }
  }

  /** The macro of a class derived from one that the file does not reflect. */
  lemma DerivedFromElsewhere()
    ensures Gather(map[], "derived", ["x"], Some("base")) == NoSuchBase
    ensures Gather(map[], "derived", ["x"], None) == Done
  {
  }

  /** A class that names itself as its base repeats its own fields. */
  lemma DerivedFromItself()
    ensures Gather(map[], "self", ["x"], Some("self")) == Refused
  {
    var own := With(map[], "self", ["x"]);
    assert own["self"].fields == ["x"];
    var twice := Entry(own, "self").fields + ["x"];
    assert twice[0] == twice[1];
  }

  function Marked(e: Reflection, names: seq<Name>, ignore: bool): (r: Reflection) {
    if ignore then e.(ignored := e.ignored + names) else e.(swapped := e.swapped + names)
  }

  // Each name is new to the list it joins and absent from the other.
  ghost predicate Allowed(e: Reflection, names: seq<Name>, ignore: bool) {
    && NoRepeats(names)
    && forall x :: x in names ==> x !in e.ignored && x !in e.swapped
  }

  lemma MarkOneMore(e: Reflection, names: seq<Name>, i: nat, ignore: bool)
    requires i < |names| && Tidy(e)
    requires i > 0 ==> Allowed(e, names[..i], ignore)
    ensures var now := Marked(e, names[..i], ignore);
      && (names[i] in now.ignored || names[i] in now.swapped ==> !Allowed(e, names, ignore))
      && (names[i] !in now.ignored && names[i] !in now.swapped ==> Allowed(e, names[..i + 1], ignore))
      && Marked(now, [names[i]], ignore) == Marked(e, names[..i + 1], ignore)
  {
    var before := names[..i];
    assert names[..i + 1] == before + [names[i]];
    Snoc(before, names[i]);
    if names[i] in before {
      var j :| 0 <= j < i && before[j] == names[i];
      assert names[j] == names[i];
    }
  }

  lemma EntryTidy(classes: map<Name, Reflection>, c: Name)
    requires AllTidy(classes)
    ensures Tidy(Entry(classes, c))
  {
  }

  lemma MarkKeepsTidy(classes: map<Name, Reflection>, c: Name, x: Name, ignore: bool)
    requires AllTidy(classes) && c in classes && x !in classes[c].ignored && x !in classes[c].swapped
    ensures AllTidy(classes[c := Marked(classes[c], [x], ignore)])
  {
    Snoc(classes[c].ignored, x);
    Snoc(classes[c].swapped, x);
    assert Tidy(Marked(classes[c], [x], ignore));
  }

  // ---- What the comparison is given ----

  // A chainbase object has an id of its own, ignored unless it is mentioned.
  function WithId(r: Reflection, ignoreId: bool): (q: Reflection) {
    if ignoreId && "id" !in r.ignored && "id" !in r.fields then r.(ignored := r.ignored + ["id"]) else r
  }

  /** A gathered reflection, with the implicit id, passes exactly when its lists name what
      they should, what is left agrees in order, and no swap is needless. */
  lemma StoredVerdict(F: seq<Name>, r: Reflection, ignoreId: bool)
    requires NoRepeats(F) && Tidy(r)
    ensures var q := WithId(r, ignoreId);
      var implicit := ignoreId && "id" !in r.ignored && "id" !in r.fields;
      var ignored := Names(r.ignored) + if implicit then {"id"} else {};
      Check(F, q.fields, q.ignored, q.swapped) == Passed <==>
      && (forall x :: x in ignored ==> x in F && x !in r.fields)
      && (forall x :: x in r.swapped ==> x in F && x in r.fields)
      && Keep(F, ignored + Names(r.swapped)) == Keep(r.fields, Names(r.swapped))
      && !NeedlessSwap(F, r.fields, r.swapped)
  {
    hide Check, Keep, NeedlessSwap;
    var q := WithId(r, ignoreId);
    Snoc(r.ignored, "id");
    MatchIsExact(F, q.fields, q.ignored, q.swapped);
    assert Names(r.ignored + ["id"]) == Names(r.ignored) + {"id"};
    assert Names(r.ignored) + {} == Names(r.ignored);
  }

  lemma PrefixRepeats(s: seq<Name>, n: nat)
    requires n <= |s| && !NoRepeats(s[..n])
    ensures !NoRepeats(s)
  {
    var i, j :| 0 <= i < j < n && s[..n][i] == s[..n][j];
    assert s[i] == s[j];
  }
}
