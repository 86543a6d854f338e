// Decoding and encoding again. The bytes come back if and only if they were canonical: every
// number of variable length minimal, every presence flag 0 or 1, and nothing left out that the
// encoder would not leave out.
module AbiCanonical {
  import opened Options
  import opened AbiCodec
  import opened AbiRoundTrip
  import opened AbiDepth
  import opened AbiProperties
  import opened AbiMinimal

  ghost predicate CanonicalPrims(p: Prim, n: nat, s: Bytes) {
    n > 0 ==>
      var r := UnpackPrim(p, s);
      r.Some? && CanonicalPrim(p, s) && CanonicalPrims(p, n - 1, r.value.1)
  }

  lemma {:induction false} PrimsRecoded(p: Prim, n: nat, s: Bytes)
    requires UnpackAll(p, n, s).Some?
    ensures var (v, rest) := UnpackAll(p, n, s).value;
      Recoded(PackAll(p, v.items), s, rest, CanonicalPrims(p, n, s))
  {
    hide UnpackPrim, Pack, CanonicalPrim, UnpackAll, Recoded;
    UnpackAllStep(p, n, s);
    if n == 0 {
      RecodedNothing(s);
    } else {
      var (v, mid) := UnpackPrim(p, s).value;
      PrimRecoded(p, s);
      PrimsRecoded(p, n - 1, mid);
      var (vs, rest) := UnpackAll(p, n - 1, mid).value;
      var all := [v] + vs.items;
      assert all[1..] == vs.items;
      RecodedJoin(Pack(p, v), PackAll(p, vs.items), s, mid, rest, CanonicalPrim(p, s), CanonicalPrims(p, n - 1, mid));
    }
  }

  // ---- Canonical data ----

  // What Decode reads from s at depth d, judged where extensions may or may not be left out.
  ghost predicate Canonical(a: Abi, d: nat, t: Type, s: Bytes, ext: bool)
    decreases d, 0
  {
    if d == 0 then false
    else match Resolve(a, t)
      case Fixed(n, e) => CanonicalAll(a, d - 1, e, n, s)
      case Array(e) =>
        && Minimal(s, true)
        && var (n, rest) := ReadVarUint(s).value;
           if IsBuiltIn(a, e) then CanonicalPrims(a.builtIns[e.name], n, rest) else CanonicalAll(a, d - 1, e, n, rest)
      case Optional(e) =>
        && s != []
        && (s[0] == 0
            || (s[0] == 1
                && if IsBuiltIn(a, e) then CanonicalPrim(a.builtIns[e.name], s[1..])
                   else
                     var r := Decode(a, d - 1, e, s[1..]);
                     r.Some? && r.value.0 != Null && Canonical(a, d - 1, e, s[1..], ext)))
      case Named(n) =>
        if n in a.builtIns then CanonicalPrim(a.builtIns[n], s)
        else if n in a.variants then CanonicalChoice(a, d, a.variants[n], s, ext)
        else CanonicalStruct(a, d - 1, n, s, [], ext)
  }

  ghost predicate CanonicalAll(a: Abi, d: nat, e: Type, n: nat, s: Bytes)
    decreases d, 1 + n
  {
    n > 0 ==>
      var r := Decode(a, d, e, s);
      r.Some? && Canonical(a, d, e, s, false) && CanonicalAll(a, d, e, n - 1, r.value.1)
  }

  // The first choice with the tag of the one read is that one.
  ghost predicate CanonicalChoice(a: Abi, d: nat, cs: seq<Choice>, s: Bytes, ext: bool)
    requires d > 0
    decreases d - 1, 1
  {
    && Minimal(s, true)
    && var (i, rest) := ReadVarUint(s).value;
       i < |cs| && FindTag(cs, cs[i].tag) == Some(i) && Canonical(a, d - 1, cs[i].ty, rest, ext)
  }

  ghost predicate CanonicalStruct(a: Abi, d: nat, name: string, s: Bytes, ms: seq<Member>, ext: bool)
    decreases d, 1
  {
    && d > 0 && name in a.structs
    && if a.structs[name].base.None? then CanonicalFields(a, d - 1, a.structs[name].fields, s, ext)
       else
         && BaseOf(a, name).Some?
         && var b := BaseOf(a, name).value;
            var under := DecodeStruct(a, d - 1, b, s, ms);
            && under.Some? && CanonicalStruct(a, d - 1, b, s, ms, false)
            && CanonicalFields(a, d - 1, a.structs[name].fields, under.value.1, ext)
  }

  // At the end of the data the fields that are left must be ones that may be left out.
  ghost predicate CanonicalFields(a: Abi, d: nat, fs: seq<Field>, s: Bytes, ext: bool)
    decreases d, 1 + |fs|
  {
    if fs == [] then true
    else if s == [] then ext
    else
      var r := Decode(a, d, fs[0].ty, s);
      && r.Some? && Canonical(a, d, fs[0].ty, s, ext && |fs| == 1)
      && CanonicalFields(a, d, fs[1..], r.value.1, ext)
  }

  // ---- Tables without ambiguity ----

  // The fields of a struct after those of its bases.
  function ChainFields(a: Abi, d: nat, name: string): (fs: seq<Field>)
    decreases d, 1
  {
    if d == 0 || name !in a.structs then [] else BaseFields(a, d, name) + a.structs[name].fields
  }

  function BaseFields(a: Abi, d: nat, name: string): (fs: seq<Field>)
    requires d > 0 && name in a.structs
    decreases d, 0
  {
    if BaseOf(a, name).Some? then ChainFields(a, d - 1, BaseOf(a, name).value) else []
  }

  ghost predicate DistinctNames(fs: seq<Field>) {
    forall i, j :: 0 <= i < j < |fs| ==> fs[i].name != fs[j].name
  }

  // No struct repeats a field name of its own or its bases, bases are structs only, and a tag
  // stands for one type, as a tag is the name of its type.
  ghost predicate Unambiguous(a: Abi) {
    && (forall n, d :: n in a.structs ==> DistinctNames(ChainFields(a, d, n)))
    && (forall n :: n in a.structs && BaseOf(a, n).Some? && BaseOf(a, n).value in a.structs ==>
          IsStruct(a, BaseOf(a, n).value))
    && (forall n :: n in a.variants ==> TagsAreTypes(a.variants[n]))
  }

  ghost predicate TagsAreTypes(cs: seq<Choice>) {
    forall i, j :: 0 <= i < |cs| && 0 <= j < |cs| && cs[i].tag == cs[j].tag ==> cs[i].ty == cs[j].ty
  }

  ghost predicate NoneOf(fs: seq<Field>, ms: seq<Member>) {
    forall k :: 0 <= k < |fs| ==> Lookup(ms, fs[k].name) == None
  }

  // ms and ns agree on these fields.
  ghost predicate AgreeOn(fs: seq<Field>, ms: seq<Member>, ns: seq<Member>) {
    forall k :: 0 <= k < |fs| ==> Lookup(ms, fs[k].name) == Lookup(ns, fs[k].name)
  }

  // No field has that name.
  ghost predicate Unnamed(fs: seq<Field>, key: string) {
    forall k :: 0 <= k < |fs| ==> fs[k].name != key
  }

  lemma PartsOf(x: seq<Field>, y: seq<Field>)
    ensures forall k :: 0 <= k < |x| ==> x[k] == (x + y)[k]
    ensures forall k :: 0 <= k < |y| ==> y[k] == (x + y)[|x| + k]
  {
  }

  lemma SplitNames(x: seq<Field>, y: seq<Field>)
    requires DistinctNames(x + y)
    ensures DistinctNames(x) && DistinctNames(y)
    ensures forall k :: 0 <= k < |x| ==> Unnamed(y, x[k].name)
    ensures forall k :: 0 <= k < |y| ==> Unnamed(x, y[k].name)
  {
    PartsOf(x, y);
  }

  lemma SplitNone(x: seq<Field>, y: seq<Field>, ms: seq<Member>)
    requires NoneOf(x + y, ms)
    ensures NoneOf(x, ms) && NoneOf(y, ms)
  {
    hide Lookup;
    PartsOf(x, y);
  }

  lemma SplitAgree(x: seq<Field>, y: seq<Field>, ms: seq<Member>, ns: seq<Member>)
    requires AgreeOn(x + y, ms, ns)
    ensures AgreeOn(x, ms, ns) && AgreeOn(y, ms, ns)
  {
    hide Lookup;
    PartsOf(x, y);
  }

  lemma SplitUnnamed(x: seq<Field>, y: seq<Field>, key: string)
    requires Unnamed(x + y, key)
    ensures Unnamed(x, key) && Unnamed(y, key)
  {
    PartsOf(x, y);
  }

  // ---- Arrays ----

  lemma {:induction false} AllRecoded(a: Abi, d: nat, e: nat, t: Type, n: nat, s: Bytes)
    requires Unambiguous(a) && e >= d && DecodeAll(a, d, t, n, s).Some?
    ensures var (v, rest) := DecodeAll(a, d, t, n, s).value;
      Recoded(EncodeAll(a, e, t, v.items), s, rest, CanonicalAll(a, d, t, n, s))
    decreases d, 4 + n
  {
    hide Decode, Encode, Canonical, DecodeAll, Recoded, Unambiguous;
    DecodeAllStep(a, d, t, n, s);
    if n == 0 {
      RecodedNothing(s);
    } else {
      var (v, mid) := Decode(a, d, t, s).value;
      ValueRecoded(a, d, e, t, s, false);
      AllRecoded(a, d, e, t, n - 1, mid);
      var (vs, rest) := DecodeAll(a, d, t, n - 1, mid).value;
      var all := [v] + vs.items;
      assert all[1..] == vs.items;
      RecodedJoin(Encode(a, e, t, v, false), EncodeAll(a, e, t, vs.items), s, mid, rest,
                  Canonical(a, d, t, s, false), CanonicalAll(a, d, t, n - 1, mid));
    }
  }

  lemma {:induction false} ArrayRecoded(a: Abi, d: nat, e: nat, t: Type, u: Type, s: Bytes, ext: bool)
    requires Unambiguous(a) && e >= d && Resolve(a, t) == Array(u) && Decode(a, d, t, s).Some?
    ensures var (v, rest) := Decode(a, d, t, s).value;
      Recoded(Encode(a, e, t, v, ext), s, rest, Canonical(a, d, t, s, ext))
    decreases d, 2
  {
    hide Resolve, DecodeAll, UnpackAll, EncodeAll, PackAll, CanonicalAll, CanonicalPrims, Recoded, Unambiguous,
         Minimal, VarBytes, ReadVar32;
    var (n, mid) := ReadVar32(s, true).value;
    VarRecoded(s, true, n);
    if IsBuiltIn(a, u) {
      var p := a.builtIns[u.name];
      PrimsRecoded(p, n, mid);
      var (v, rest) := UnpackAll(p, n, mid).value;
      RecodedJoin(Some(VarBytes(n)), PackAll(p, v.items), s, mid, rest, Minimal(s, true), CanonicalPrims(p, n, mid));
    } else {
      AllRecoded(a, d - 1, e - 1, u, n, mid);
      var (v, rest) := DecodeAll(a, d - 1, u, n, mid).value;
      RecodedJoin(Some(VarBytes(n)), EncodeAll(a, e - 1, u, v.items), s, mid, rest, Minimal(s, true),
                  CanonicalAll(a, d - 1, u, n, mid));
    }
  }

  // ---- Optionals and variants ----

  lemma {:induction false} OptionalRecoded(a: Abi, d: nat, e: nat, t: Type, u: Type, s: Bytes, ext: bool)
    requires Unambiguous(a) && e >= d && Resolve(a, t) == Optional(u) && Decode(a, d, t, s).Some?
    ensures var (v, rest) := Decode(a, d, t, s).value;
      Recoded(Encode(a, e, t, v, ext), s, rest, Canonical(a, d, t, s, ext))
    decreases d, 2
  {
    hide Resolve, UnpackPrim, CanonicalPrim, PrimOk, PackPrim, Recoded, Unambiguous;
    if s[0] == 0 {
      RecodedByte(s, 0);
    } else {
      RecodedByte(s, 1);
      if IsBuiltIn(a, u) {
        var p := a.builtIns[u.name];
        PrimRecoded(p, s[1..]);
        var (v, rest) := UnpackPrim(p, s[1..]).value;
        UnpackedIsNotNull(p, s[1..]);
        RecodedJoin(Some([1]), Pack(p, v), s, s[1..], rest, s[0] == 1, CanonicalPrim(p, s[1..]));
      } else {
        ValueRecoded(a, d - 1, e - 1, u, s[1..], ext);
        var (v, rest) := Decode(a, d - 1, u, s[1..]).value;
        if v == Null {
          AbsentInPresent(s, Encode(a, e - 1, u, v, ext), rest, Canonical(a, d - 1, u, s[1..], ext));
        } else {
          RecodedJoin(Some([1]), Encode(a, e - 1, u, v, ext), s, s[1..], rest, s[0] == 1, Canonical(a,
                      d - 1, u, s[1..], ext));
        }
      }
    }
  }

  lemma UnpackedIsNotNull(p: Prim, s: Bytes)
    requires UnpackPrim(p, s).Some?
    ensures UnpackPrim(p, s).value.0 != Null
  {
  }

  lemma AbsentInPresent(s: Bytes, inner: Option<Bytes>, rest: Bytes, canonical: bool)
    requires s != [] && s[0] != 0 && Recoded(inner, s[1..], rest, canonical)
    ensures Recoded(Some([0]), s, rest, false)
  {
    var k := |s| - |rest|;
    assert k > 0 && s[..k][0] == s[0];
    assert s[k..] == s[1..][k - 1..];
  }

  lemma {:induction false} ChoiceRecoded(a: Abi, d: nat, e: nat, cs: seq<Choice>, s: Bytes, ext: bool)
    requires Unambiguous(a) && d > 0 && e >= d && TagsAreTypes(cs) && DecodeChoice(a, d, cs, s).Some?
    ensures var (v, rest) := DecodeChoice(a, d, cs, s).value;
      Recoded(EncodeChoice(a, e, cs, v, ext), s, rest, CanonicalChoice(a, d, cs, s, ext))
    decreases d, 1
  {
    hide Decode, Encode, Canonical, Recoded, Unambiguous, Minimal, VarBytes, ReadVar32;
    var (i, mid) := ReadVar32(s, true).value;
    var (v, rest) := Decode(a, d - 1, cs[i].ty, mid).value;
    TagIsFound(cs, i);
    var j := FindTag(cs, cs[i].tag).value;
    VarRecoded(s, true, j);
    ValueRecoded(a, d - 1, e - 1, cs[i].ty, mid, ext);
    RecodedJoin(Some(VarBytes(j)), Encode(a, e - 1, cs[i].ty, v, ext), s, mid, rest,
                j == i && Minimal(s, true), Canonical(a, d - 1, cs[i].ty, mid, ext));
  }

  lemma {:induction false} TagIsFound(cs: seq<Choice>, i: nat)
    requires i < |cs|
    ensures FindTag(cs, cs[i].tag).Some? && FindTag(cs, cs[i].tag).value <= i
  {
    if cs[0].tag == cs[i].tag {
    } else {
      TagIsFound(cs[1..], i - 1);
    }
  }

  // ---- Structs ----

  lemma {:induction false} FieldsRecoded(a: Abi, d: nat, e: nat, fs: seq<Field>, s: Bytes, ms: seq<Member>,
                                         full: seq<Member>, ext: bool)
    requires Unambiguous(a) && e >= d && DecodeFields(a, d, fs, s, ms).Some? && DistinctNames(fs) && NoneOf(fs, ms)
    requires AgreeOn(fs, full, DecodeFields(a, d, fs, s, ms).value.0)
    ensures Recoded(EncodeFields(a, e, fs, full, ext, false), s, DecodeFields(a, d, fs, s, ms).value.1,
                    CanonicalFields(a, d, fs, s, ext))
    decreases d, 4 + |fs|
  {
    hide Decode, Encode, Canonical, Lookup, Put, Recoded, Unambiguous;
    if fs == [] {
      RecodedNothing(s);
    } else if s == [] {
      NothingDecoded(a, d, fs, ms);
      NothingRecoded(a, e, fs, full, ext);
    } else {
      var (v, mid) := Decode(a, d, fs[0].ty, s).value;
      var ns := Put(ms, fs[0].name, v);
      ValueRecoded(a, d, e, fs[0].ty, s, ext && |fs| == 1);
      FieldWritten(a, d, fs, mid, ms, v);
      FieldsRecoded(a, d, e, fs[1..], mid, ns, full, ext);
      RecodedJoin(Encode(a, e, fs[0].ty, v, ext && |fs| == 1), EncodeFields(a, e, fs[1..], full, ext, false), s, mid,
                  DecodeFields(a, d, fs[1..], mid, ns).value.1,
                  Canonical(a, d, fs[0].ty, s, ext && |fs| == 1), CanonicalFields(a, d, fs[1..], mid, ext));
    }
  }

  // A field once read keeps its value, and the names to come are still new.
  lemma FieldWritten(a: Abi, d: nat, fs: seq<Field>, s: Bytes, ms: seq<Member>, v: Value)
    requires fs != [] && DistinctNames(fs) && NoneOf(fs, ms)
    ensures var ns := Put(ms, fs[0].name, v);
      && NoneOf(fs[1..], ns) && DistinctNames(fs[1..])
      && var r := DecodeFields(a, d, fs[1..], s, ns); r.Some? ==> Lookup(r.value.0, fs[0].name) == Some(v)
  {
    hide DecodeFields, Lookup, Put;
    var ns := Put(ms, fs[0].name, v);
    forall k | 0 <= k < |fs[1..]| ensures Lookup(ns, fs[1..][k].name) == None {
      LookupPut(ms, fs[0].name, v, fs[k + 1].name);
    }
    LookupPut(ms, fs[0].name, v, fs[0].name);
    FieldsKeep(a, d, fs[1..], s, ns, fs[0].name);
  }

  lemma {:induction false} NothingDecoded(a: Abi, d: nat, fs: seq<Field>, ms: seq<Member>)
    requires DecodeFields(a, d, fs, [], ms).Some?
    ensures DecodeFields(a, d, fs, [], ms) == Some((ms, [])) && AllExtensions(fs)
    decreases |fs|
  {
    hide Decode;
    if fs == [] {
    } else {
      NothingDecoded(a, d, fs[1..], ms);
    }
  }

  lemma NothingRecoded(a: Abi, e: nat, fs: seq<Field>, full: seq<Member>, ext: bool)
    requires fs != [] && AllExtensions(fs) && NoneOf(fs, full)
    ensures Recoded(EncodeFields(a, e, fs, full, ext, false), [], [], ext)
  {
    hide Encode, Lookup;
    ClosedWritesNothing(a, e, fs[1..], full, ext);
  }

  // Fields of another name leave a member alone, through the bases too.
  lemma {:induction false} StructKeeps(a: Abi, d: nat, name: string, s: Bytes, ms: seq<Member>, key: string)
    requires Unnamed(ChainFields(a, d, name), key)
    ensures var r := DecodeStruct(a, d, name, s, ms); r.Some? ==> Lookup(r.value.0, key) == Lookup(ms, key)
    decreases d
  {
    hide DecodeFields, Lookup, Resolve, Unnamed;
    if d == 0 || name !in a.structs {
    } else {
      var st := a.structs[name];
      SplitUnnamed(BaseFields(a, d, name), st.fields, key);
      if st.base.None? {
        OwnKeep(a, d - 1, st.fields, s, ms, key);
      } else if BaseOf(a, name).Some? {
        var b := BaseOf(a, name).value;
        StructKeeps(a, d - 1, b, s, ms, key);
        var under := DecodeStruct(a, d - 1, b, s, ms);
        if under.Some? { OwnKeep(a, d - 1, st.fields, under.value.1, under.value.0, key); }
      }
    }
  }

  lemma OwnKeep(a: Abi, d: nat, fs: seq<Field>, s: Bytes, ms: seq<Member>, key: string)
    requires Unnamed(fs, key)
    ensures var r := DecodeFields(a, d, fs, s, ms); r.Some? ==> Lookup(r.value.0, key) == Lookup(ms, key)
  {
    hide DecodeFields, Lookup;
    FieldsKeep(a, d, fs, s, ms, key);
  }

  lemma StructSteps(a: Abi, d: nat, e: nat, name: string, s: Bytes, ms: seq<Member>, full: seq<Member>, ext: bool)
    requires Unambiguous(a) && e >= d && DecodeStruct(a, d, name, s, ms).Some?
    ensures d > 0 && name in a.structs
    ensures var st := a.structs[name];
      if st.base.None? then
        && DecodeStruct(a, d, name, s, ms) == DecodeFields(a, d - 1, st.fields, s, ms)
        && EncodeStruct(a, e, st, Object(full), ext) == Join(Some([]), EncodeFields(a, e - 1, st.fields, full, ext, false))
      else
        && BaseOf(a, name).Some?
        && var b := BaseOf(a, name).value;
           var under := DecodeStruct(a, d - 1, b, s, ms);
           && b in a.structs && d > 1 && under.Some?
           && DecodeStruct(a, d, name, s, ms) == DecodeFields(a, d - 1, st.fields, under.value.1, under.value.0)
           && EncodeStruct(a, e, st, Object(full), ext) ==
              Join(EncodeStruct(a, e - 1, a.structs[b], Object(full), false), EncodeFields(a, e - 1, st.fields, full, ext, false))
  {
    hide DecodeFields, EncodeFields, Resolve, ChainFields, BaseFields, DistinctNames, TagsAreTypes;
    var st := a.structs[name];
    if st.base.Some? {
      var b := BaseOf(a, name).value;
      ResolveTwice(a, Named(st.base.value));
      BaseEncodes(a, e - 1, b, full);
    }
  }

  // The fields of the bases keep their values while the own ones, still new, are read.
  lemma BaseStays(a: Abi, d: nat, name: string, s: Bytes, ms: seq<Member>, full: seq<Member>)
    requires d > 0 && name in a.structs && BaseOf(a, name).Some?
    requires DistinctNames(ChainFields(a, d, name)) && NoneOf(ChainFields(a, d, name), ms)
    requires DecodeStruct(a, d - 1, BaseOf(a, name).value, s, ms).Some?
    requires var under := DecodeStruct(a, d - 1, BaseOf(a, name).value, s, ms).value;
      var r := DecodeFields(a, d - 1, a.structs[name].fields, under.1, under.0);
      r.Some? && AgreeOn(ChainFields(a, d, name), full, r.value.0)
    ensures var under := DecodeStruct(a, d - 1, BaseOf(a, name).value, s, ms).value;
      AgreeOn(BaseFields(a, d, name), full, under.0) && NoneOf(a.structs[name].fields, under.0)
  {
    hide DecodeFields, DecodeStruct, Lookup, BaseOf, DistinctNames, Unnamed;
    var b, fs, below := BaseOf(a, name).value, a.structs[name].fields, BaseFields(a, d, name);
    var under := DecodeStruct(a, d - 1, b, s, ms).value;
    var ns := DecodeFields(a, d - 1, fs, under.1, under.0).value.0;
    SplitNames(below, fs);
    SplitNone(below, fs, ms);
    SplitAgree(below, fs, full, ns);
    assert below == ChainFields(a, d - 1, b);
    hide ChainFields, BaseFields;
    forall k | 0 <= k < |below| ensures Lookup(full, below[k].name) == Lookup(under.0, below[k].name) {
      OwnKeep(a, d - 1, fs, under.1, under.0, below[k].name);
    }
    forall k | 0 <= k < |fs| ensures Lookup(under.0, fs[k].name) == None {
      StructKeeps(a, d - 1, b, s, ms, fs[k].name);
    }
  }

  lemma {:induction false} StructRecoded(a: Abi, d: nat, e: nat, name: string, s: Bytes, ms: seq<Member>,
                                         full: seq<Member>, ext: bool)
    requires Unambiguous(a) && e >= d && DecodeStruct(a, d, name, s, ms).Some?
    requires DistinctNames(ChainFields(a, d, name)) && NoneOf(ChainFields(a, d, name), ms)
    requires AgreeOn(ChainFields(a, d, name), full, DecodeStruct(a, d, name, s, ms).value.0)
    ensures d > 0 && name in a.structs
    ensures Recoded(EncodeStruct(a, e, a.structs[name], Object(full), ext), s, DecodeStruct(a, d, name, s, ms).value.1,
                    CanonicalStruct(a, d, name, s, ms, ext))
    decreases d, 3
  {
    hide DecodeFields, EncodeFields, CanonicalFields, Lookup, Recoded, Unambiguous, DistinctNames, NoneOf,
         AgreeOn, Unnamed, DecodeStruct, EncodeStruct, BaseOf;
    StructSteps(a, d, e, name, s, ms, full, ext);
    var st, below := a.structs[name], BaseFields(a, d, name);
    var (res, rest) := DecodeStruct(a, d, name, s, ms).value;
    SplitNames(below, st.fields);
    SplitNone(below, st.fields, ms);
    SplitAgree(below, st.fields, full, res);
    if st.base.None? {
      FieldsRecoded(a, d - 1, e - 1, st.fields, s, ms, full, ext);
      RecodedNothing(s);
      RecodedJoin(Some([]), EncodeFields(a, e - 1, st.fields, full, ext, false), s, s, rest,
                  true, CanonicalFields(a, d - 1, st.fields, s, ext));
    } else {
      var b := BaseOf(a, name).value;
      var (ns, mid) := DecodeStruct(a, d - 1, b, s, ms).value;
      BaseStays(a, d, name, s, ms, full);
      StructRecoded(a, d - 1, e - 1, b, s, ms, full, false);
      FieldsRecoded(a, d - 1, e - 1, st.fields, mid, ns, full, ext);
      RecodedJoin(EncodeStruct(a, e - 1, a.structs[b], Object(full), false), EncodeFields(a, e - 1,
                  st.fields, full, ext, false),
                  s, mid, rest, CanonicalStruct(a, d - 1, b, s, ms, false), CanonicalFields(a, d - 1, st.fields, mid, ext));
    }
  }

  // ---- Any value ----

  lemma {:induction false} NamedRecoded(a: Abi, d: nat, e: nat, t: Type, n: string, s: Bytes, ext: bool)
    requires Unambiguous(a) && e >= d && Resolve(a, t) == Named(n) && Decode(a, d, t, s).Some?
    ensures var (v, rest) := Decode(a, d, t, s).value;
      Recoded(Encode(a, e, t, v, ext), s, rest, Canonical(a, d, t, s, ext))
    decreases d, 2
  {
    hide Resolve, DecodeChoice, DecodeStruct, EncodeChoice, EncodeStruct, UnpackPrim, Pack, CanonicalPrim,
         CanonicalChoice, CanonicalStruct, Recoded, TagsAreTypes, DistinctNames, ChainFields;
    if n in a.builtIns {
      PrimRecoded(a.builtIns[n], s);
    } else if n in a.variants {
      ChoiceRecoded(a, d, e, a.variants[n], s, ext);
    } else {
      var full := DecodeStruct(a, d - 1, n, s, []).value.0;
      StructIsKnown(a, d - 1, n, s);
      StructRecoded(a, d - 1, e, n, s, [], full, ext);
    }
  }

  lemma StructIsKnown(a: Abi, d: nat, n: string, s: Bytes)
    requires DecodeStruct(a, d, n, s, []).Some?
    ensures n in a.structs
  {
  }

  /** Whenever decoding succeeds, encoding the value again gives back the bytes consumed if and
      only if they were canonical, and never more bytes. */
  lemma {:induction false} ValueRecoded(a: Abi, d: nat, e: nat, t: Type, s: Bytes, ext: bool)
    requires Unambiguous(a) && e >= d && Decode(a, d, t, s).Some?
    ensures var (v, rest) := Decode(a, d, t, s).value;
      Recoded(Encode(a, e, t, v, ext), s, rest, Canonical(a, d, t, s, ext))
    decreases d, 3
  {
    hide Resolve, DecodeAll, EncodeAll, CanonicalAll, Recoded, Unambiguous;
    match Resolve(a, t) {
      case Fixed(n, u) => AllRecoded(a, d - 1, e - 1, u, n, s);
      case Array(u) => ArrayRecoded(a, d, e, t, u, s, ext);
      case Optional(u) => OptionalRecoded(a, d, e, t, u, s, ext);
      case Named(n) => NamedRecoded(a, d, e, t, n, s, ext);
    }
  }

  /** What the encoder writes is canonical. */
  lemma EncodingIsCanonical(a: Abi, d: nat, e: nat, t: Type, v: Value, ext: bool, rest: Bytes)
    requires Unambiguous(a) && Conforms(a, d, t, v, ext) && Readable(a, d, t, v, ext, rest != []) && (ext ==> rest == [])
    requires e >= Need(a, d, t, v, ext)
    ensures Encode(a, d, t, v, ext).Some? && Canonical(a, e, t, Encode(a, d, t, v, ext).value + rest, ext)
  {
    hide Encode, Decode, Canonical, Conforms, Readable, Need, Unambiguous;
    RestoredExactly(a, d, e, t, v, ext, rest);
    var b, big := Encode(a, d, t, v, ext).value, if d < e then e else d;
    EncodeDeeper(a, d, big, t, v, ext);
    ValueRecoded(a, e, big, t, b + rest, ext);
    assert (b + rest)[..|b|] == b;
  }

  /** A value has one canonical form. */
  lemma CanonicalIsUnique(a: Abi, d: nat, t: Type, s: Bytes, r: Bytes, ext: bool)
    requires Unambiguous(a) && Decode(a, d, t, s).Some? && Decode(a, d, t, s) == Decode(a, d, t, r)
    requires Canonical(a, d, t, s, ext) && Canonical(a, d, t, r, ext)
    ensures s == r
  {
    hide Encode, Decode, Canonical, Unambiguous;
    ValueRecoded(a, d, d, t, s, ext);
    ValueRecoded(a, d, d, t, r, ext);
    var rest := Decode(a, d, t, s).value.1;
    assert s == s[..|s| - |rest|] + rest && r == r[..|r| - |rest|] + rest;
  }

  // ---- Another form ----

  /** A presence flag of two is accepted before a struct and written as one. */
  lemma OtherFlagIsAccepted(n: Byte)
    ensures Unambiguous(SampleAbi(Named("uint8")))
    ensures var a, t, v := SampleAbi(Named("uint8")), Optional(Named("s")), Object([Member("a", Num(n))]);
      Decode(a, 4, t, [2, n]) == Some((v, [])) && Encode(a, 4, t, v, false) == Some([1, n])
  {
    var a, t, v := SampleAbi(Named("uint8")), Optional(Named("s")), Object([Member("a", Num(n))]);
    DepthDiffers(n);
    EncodeDeeper(a, 2, 3, Named("s"), v, false);
    var s: Bytes, one: Bytes := [2, n], [1];
    assert s[1..] == [n] && one + [n] == [1, n];
    OptionalOf(a, 4, t, Named("s"), s, v);
    SampleIsUnambiguous();
  }

  lemma SampleIsUnambiguous()
    ensures Unambiguous(SampleAbi(Named("uint8")))
  {
    var a := SampleAbi(Named("uint8"));
    forall n, d | n in a.structs ensures DistinctNames(ChainFields(a, d, n)) {
      assert d > 0 ==> BaseFields(a, d, n) == [];
    }
  }

  lemma OptionalOf(a: Abi, d: nat, t: Type, u: Type, s: Bytes, v: Value)
    requires d > 0 && t == Optional(u) && !IsBuiltIn(a, u) && s != [] && s[0] != 0 && v != Null
    ensures Decode(a, d, t, s) == Decode(a, d - 1, u, s[1..])
    ensures Encode(a, d, t, v, false) == Join(Some([1]), Encode(a, d - 1, u, v, false))
  {
    assert Resolve(a, t) == t;
  }
}
