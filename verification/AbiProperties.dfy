// What follows from the round trip, and how binary extensions behave.
module AbiProperties {
  import opened Options
  import opened AbiCodec
  import opened AbiRoundTrip
  import opened AbiDepth

  /** Readable values of one type that encode alike are equal. */
  lemma EncodingIsInjective(a: Abi, d: nat, t: Type, v: Value, w: Value, ext: bool)
    requires Conforms(a, d, t, v, ext) && Readable(a, d, t, v, ext, false)
    requires Conforms(a, d, t, w, ext) && Readable(a, d, t, w, ext, false)
    requires Encode(a, d, t, v, ext) == Encode(a, d, t, w, ext)
    ensures v == w
  {
    hide Encode, Decode, Conforms, Readable, Need;
    var e := Max(Need(a, d, t, v, ext), Need(a, d, t, w, ext));
    RoundTrip(a, d, e, t, v, ext, []);
    RoundTrip(a, d, e, t, w, ext, []);
  }

  // ---- Without extensions, more data changes nothing ----

  ghost predicate NoExtensions(a: Abi) {
    forall n :: n in a.structs ==> Plain(a.structs[n].fields)
  }

  ghost predicate Plain(fs: seq<Field>) {
    forall k :: 0 <= k < |fs| ==> !fs[k].extension
  }

  // q follows the data, and is left over with whatever was left over before.
  ghost predicate Extends<T>(r: Option<(T, Bytes)>, q: Bytes, s: Option<(T, Bytes)>) {
    r.Some? ==> s == Some((r.value.0, r.value.1 + q))
  }

  lemma {:induction false} ReadVarExtends(s: Bytes, k: nat, q: Bytes, capped: bool)
    ensures Extends(ReadVar(s, k, capped), q, ReadVar(s + q, k, capped))
    decreases |s|
  {
    if s == [] {
    } else {
      assert (s + q)[1..] == s[1..] + q;
      ReadVarExtends(s[1..], k + 1, q, capped);
    }
  }

  lemma VarUintExtends(s: Bytes, q: Bytes)
    ensures Extends(ReadVarUint(s), q, ReadVarUint(s + q))
    ensures Extends(ReadVar32(s, false), q, ReadVar32(s + q, false))
  {
    hide ReadVar;
    ReadVarExtends(s, 0, q, true);
    ReadVarExtends(s, 0, q, false);
  }

  lemma SplitExtends(s: Bytes, k: nat, q: Bytes)
    requires k <= |s|
    ensures (s + q)[..k] == s[..k] && (s + q)[k..] == s[k..] + q
  {
  }

  lemma PrimExtends(p: Prim, s: Bytes, q: Bytes)
    ensures Extends(UnpackPrim(p, s), q, UnpackPrim(p, s + q))
  {
    hide FromLittleEndian, Pow256, ReadVarUint, ReadVar32;
    VarUintExtends(s, q);
    if (p.Unsigned? || p.Signed? || p.Raw?) && p.size <= |s| { SplitExtends(s, p.size, q); }
    if p.Blob? && ReadVarUint(s).Some? {
      var (n, rest) := ReadVarUint(s).value;
      if n <= |rest| { SplitExtends(rest, n, q); }
    }
  }

  lemma {:induction false} UnpackAllExtends(p: Prim, n: nat, s: Bytes, q: Bytes)
    ensures Extends(UnpackAll(p, n, s), q, UnpackAll(p, n, s + q))
  {
    hide UnpackPrim;
    if n == 0 {
    } else {
      PrimExtends(p, s, q);
      var r := UnpackPrim(p, s);
      if r.Some? { UnpackAllExtends(p, n - 1, r.value.1, q); }
    }
  }

  lemma {:induction false} DecodeAllExtends(a: Abi, d: nat, t: Type, n: nat, s: Bytes, q: Bytes)
    requires NoExtensions(a)
    ensures Extends(DecodeAll(a, d, t, n, s), q, DecodeAll(a, d, t, n, s + q))
    decreases d, 2 + n
  {
    hide Decode, NoExtensions;
    if n == 0 {
    } else {
      DecodeExtends(a, d, t, s, q);
      var r := Decode(a, d, t, s);
      if r.Some? { DecodeAllExtends(a, d, t, n - 1, r.value.1, q); }
    }
  }

  lemma {:induction false} FieldsExtend(a: Abi, d: nat, fs: seq<Field>, s: Bytes, ms: seq<Member>, q: Bytes)
    requires NoExtensions(a) && Plain(fs)
    ensures Extends(DecodeFields(a, d, fs, s, ms), q, DecodeFields(a, d, fs, s + q, ms))
    decreases d, 2 + |fs|
  {
    hide Decode, NoExtensions, Put;
    if fs == [] || s == [] {
    } else {
      DecodeExtends(a, d, fs[0].ty, s, q);
      var r := Decode(a, d, fs[0].ty, s);
      if r.Some? { FieldsExtend(a, d, fs[1..], r.value.1, Put(ms, fs[0].name, r.value.0), q); }
    }
  }

  lemma {:induction false} StructExtends(a: Abi, d: nat, name: string, s: Bytes, ms: seq<Member>, q: Bytes)
    requires NoExtensions(a)
    ensures Extends(DecodeStruct(a, d, name, s, ms), q, DecodeStruct(a, d, name, s + q, ms))
    decreases d, 0
  {
    hide DecodeFields, Resolve;
    if d == 0 || name !in a.structs {
    } else {
      var st := a.structs[name];
      if st.base.None? {
        FieldsExtend(a, d - 1, st.fields, s, ms, q);
      } else if Resolve(a, Named(st.base.value)).Named? {
        var b := Resolve(a, Named(st.base.value)).name;
        StructExtends(a, d - 1, b, s, ms, q);
        var r := DecodeStruct(a, d - 1, b, s, ms);
        if r.Some? { FieldsExtend(a, d - 1, st.fields, r.value.1, r.value.0, q); }
      }
    }
  }

  lemma {:induction false} ChoiceExtends(a: Abi, d: nat, cs: seq<Choice>, s: Bytes, q: Bytes)
    requires NoExtensions(a) && d > 0
    ensures Extends(DecodeChoice(a, d, cs, s), q, DecodeChoice(a, d, cs, s + q))
    decreases d, 0
  {
    hide Decode, ReadVarUint, NoExtensions;
    VarUintExtends(s, q);
    if ReadVarUint(s).Some? && ReadVarUint(s).value.0 < |cs| {
      var (i, rest) := ReadVarUint(s).value;
      DecodeExtends(a, d - 1, cs[i].ty, rest, q);
    }
  }

  lemma {:induction false} DecodeExtends(a: Abi, d: nat, t: Type, s: Bytes, q: Bytes)
    requires NoExtensions(a)
    ensures Extends(Decode(a, d, t, s), q, Decode(a, d, t, s + q))
    decreases d, 1
  {
    hide Resolve, DecodeAll, DecodeChoice, DecodeStruct, UnpackAll, UnpackPrim, ReadVarUint, NoExtensions;
    if d == 0 {
    } else {
      VarUintExtends(s, q);
      match Resolve(a, t) {
        case Fixed(n, e) => DecodeAllExtends(a, d - 1, e, n, s, q);
        case Array(e) =>
          if ReadVarUint(s).Some? {
            var (n, rest) := ReadVarUint(s).value;
            DecodeAllExtends(a, d - 1, e, n, rest, q);
            if IsBuiltIn(a, e) { UnpackAllExtends(a.builtIns[e.name], n, rest, q); }
          }
        case Optional(e) =>
          if s != [] {
            assert (s + q)[1..] == s[1..] + q;
            DecodeExtends(a, d - 1, e, s[1..], q);
            if IsBuiltIn(a, e) { PrimExtends(a.builtIns[e.name], s[1..], q); }
          }
        case Named(n) =>
          if n in a.builtIns {
            PrimExtends(a.builtIns[n], s, q);
          } else if n in a.variants {
            ChoiceExtends(a, d, a.variants[n], s, q);
          } else {
            StructExtends(a, d - 1, n, s, [], q);
          }
      }
    }
  }

  /** No strict prefix of an encoding decodes, at any depth. */
  lemma NoPrefixDecodes(a: Abi, d: nat, e: nat, t: Type, v: Value, p: Bytes, q: Bytes)
    requires NoExtensions(a) && Conforms(a, d, t, v, false) && Readable(a, d, t, v, false, false)
    requires Encode(a, d, t, v, false) == Some(p + q) && q != []
    ensures Decode(a, e, t, p).None?
  {
    hide Encode, Decode, Conforms, Readable, Need, NoExtensions;
    var f := Max(e, Need(a, d, t, v, false));
    RoundTrip(a, d, f, t, v, false, []);
    assert (p + q) + [] == p + q;
    DecodeDeeper(a, e, f, t, p);
    DecodeExtends(a, f, t, p, q);
  }

  // ---- Binary extensions ----

  // A missing optional field is written as absent, unless it is an extension.
  predicate Written(f: Field, ms: seq<Member>) {
    Lookup(ms, f.name).Some? || (f.ty.Optional? && !f.extension)
  }

  lemma {:induction false} ClosedWritesNothing(a: Abi, d: nat, fs: seq<Field>, ms: seq<Member>, ext: bool)
    ensures EncodeFields(a, d, fs, ms, ext, true) ==
      if fs == [] || (ext && forall k :: 0 <= k < |fs| ==> fs[k].extension && !Written(fs[k], ms)) then Some([]) else None
    decreases |fs|
  {
    hide Encode, Lookup;
    if fs == [] {
    } else {
      ClosedWritesNothing(a, d, fs[1..], ms, ext);
    }
  }

  /** What is written is a prefix of the declared fields: once a field is left out, it and
      every later one is an extension, none of them is written, and extensions were allowed.
      So a field without the extension mark after one left out is always refused. */
  lemma {:induction false} WrittenIsPrefix(a: Abi, d: nat, fs: seq<Field>, ms: seq<Member>, ext: bool, i: nat, k: nat)
    requires EncodeFields(a, d, fs, ms, ext, false).Some? && i <= k < |fs| && !Written(fs[i], ms)
    ensures ext && fs[i].extension && fs[k].extension && !Written(fs[k], ms)
    decreases |fs|
  {
    hide Encode, Lookup;
    if Written(fs[0], ms) {
      WrittenIsPrefix(a, d, fs[1..], ms, ext, i - 1, k - 1);
    } else {
      ClosedWritesNothing(a, d, fs[1..], ms, ext);
      assert k > 0 ==> fs[k] == fs[1..][k - 1];
      assert i > 0 ==> fs[i] == fs[1..][i - 1];
    }
  }

  // ns gives values only to extensions that ms leaves out.
  ghost predicate AddsExtensions(fs: seq<Field>, ms: seq<Member>, ns: seq<Member>) {
    forall k :: 0 <= k < |fs| ==>
      Lookup(ns, fs[k].name) == Lookup(ms, fs[k].name) || (fs[k].extension && Lookup(ms, fs[k].name).None?)
  }

  lemma {:induction false} FieldsPrefix(a: Abi, d: nat, fs: seq<Field>, ms: seq<Member>, ns: seq<Member>, ext: bool)
    requires AddsExtensions(fs, ms, ns)
    requires EncodeFields(a, d, fs, ms, ext, false).Some? && EncodeFields(a, d, fs, ns, ext, false).Some?
    ensures EncodeFields(a, d, fs, ms, ext, false).value <= EncodeFields(a, d, fs, ns, ext, false).value
    decreases |fs|
  {
    hide Encode, Lookup;
    if fs == [] {
    } else {
      if Written(fs[0], ms) {
        assert Lookup(ns, fs[0].name) == Lookup(ms, fs[0].name);
        FieldsPrefix(a, d, fs[1..], ms, ns, ext);
      } else {
        ClosedWritesNothing(a, d, fs[1..], ms, ext);
      }
    }
  }

  // The base of a struct, where it is a struct as validation demands.
  function BaseOf(a: Abi, name: string): (b: Option<string>)
    requires name in a.structs
  {
    var base := a.structs[name].base;
    if base.Some? && Resolve(a, Named(base.value)).Named? then Some(Resolve(a, Named(base.value)).name) else None
  }

  // Both objects give the struct and its bases the same fields.
  ghost predicate SameAlong(a: Abi, d: nat, name: string, ms: seq<Member>, ns: seq<Member>) {
    d > 0 && name in a.structs ==>
      && (forall k :: 0 <= k < |a.structs[name].fields| ==>
            Lookup(ns, a.structs[name].fields[k].name) == Lookup(ms, a.structs[name].fields[k].name))
      && var b := BaseOf(a, name); b.Some? ==> SameAlong(a, d - 1, b.value, ms, ns)
  }

  // A struct name, and structs all along its bases.
  ghost predicate StructChain(a: Abi, d: nat, name: string) {
    && IsStruct(a, name) && Resolve(a, Named(name)) == Named(name)
    && (d > 0 && a.structs[name].base.Some? ==>
          BaseOf(a, name).Some? && StructChain(a, d - 1, BaseOf(a, name).value))
  }

  lemma {:induction false} SameFieldsSameBytes(a: Abi, d: nat, fs: seq<Field>, ms: seq<Member>,
                                               ns: seq<Member>, ext: bool, closed: bool)
    requires forall k :: 0 <= k < |fs| ==> Lookup(ns, fs[k].name) == Lookup(ms, fs[k].name)
    ensures EncodeFields(a, d, fs, ms, ext, closed) == EncodeFields(a, d, fs, ns, ext, closed)
    decreases |fs|
  {
    hide Encode, Lookup;
    if fs == [] {
    } else {
      SameFieldsSameBytes(a, d, fs[1..], ms, ns, ext, closed);
      SameFieldsSameBytes(a, d, fs[1..], ms, ns, ext, true);
    }
  }

  lemma StructBytes(a: Abi, d: nat, name: string, ms: seq<Member>, ext: bool)
    requires d > 0 && StructChain(a, d, name)
    ensures var b := BaseOf(a, name);
      Encode(a, d, Named(name), Object(ms), ext) ==
      Join(if b.Some? then Encode(a, d - 1, Named(b.value), Object(ms), false) else Some([]),
           EncodeFields(a, d - 1, a.structs[name].fields, ms, ext, false))
  {
    hide EncodeFields, Resolve;
  }

  lemma {:induction false} SameAlongSameBytes(a: Abi, d: nat, name: string, ms: seq<Member>, ns: seq<Member>, ext: bool)
    requires StructChain(a, d, name) && SameAlong(a, d, name, ms, ns)
    ensures Encode(a, d, Named(name), Object(ms), ext) == Encode(a, d, Named(name), Object(ns), ext)
    decreases d
  {
    hide Encode, EncodeFields, Resolve, Lookup;
    if d == 0 {
      NoDepth(a, Named(name), Object(ms), ext);
      NoDepth(a, Named(name), Object(ns), ext);
    } else {
      StructBytes(a, d, name, ms, ext);
      StructBytes(a, d, name, ns, ext);
      SameFieldsSameBytes(a, d - 1, a.structs[name].fields, ms, ns, ext, false);
      if BaseOf(a, name).Some? { SameAlongSameBytes(a, d - 1, BaseOf(a, name).value, ms, ns, false); }
    }
  }

  lemma NoDepth(a: Abi, t: Type, v: Value, ext: bool)
    ensures Encode(a, 0, t, v, ext) == None
  {
  }

  /** Giving a struct more of its extensions, and its bases the same fields, only adds bytes
      at the end. */
  lemma ShorterIsPrefix(a: Abi, d: nat, name: string, ms: seq<Member>, ns: seq<Member>, ext: bool)
    requires StructChain(a, d, name) && AddsExtensions(a.structs[name].fields, ms, ns)
    requires d > 0 && BaseOf(a, name).Some? ==> SameAlong(a, d - 1, BaseOf(a, name).value, ms, ns)
    requires Encode(a, d, Named(name), Object(ms), ext).Some? && Encode(a, d, Named(name), Object(ns), ext).Some?
    ensures Encode(a, d, Named(name), Object(ms), ext).value <= Encode(a, d, Named(name), Object(ns), ext).value
  {
    hide Encode, EncodeFields, Resolve, Lookup, SameAlong;
    NoDepth(a, Named(name), Object(ms), ext);
    StructBytes(a, d, name, ms, ext);
    StructBytes(a, d, name, ns, ext);
    FieldsPrefix(a, d - 1, a.structs[name].fields, ms, ns, ext);
    if BaseOf(a, name).Some? { SameAlongSameBytes(a, d - 1, BaseOf(a, name).value, ms, ns, false); }
  }

  // ---- A struct given as an array ----

  // ms has the first |vs| fields, with these values, and no other field.
  ghost predicate Names(fs: seq<Field>, vs: seq<Value>, ms: seq<Member>) {
    forall k :: 0 <= k < |fs| ==> Lookup(ms, fs[k].name) == if k < |vs| then Some(vs[k]) else None
  }

  ghost predicate AllExtensions(fs: seq<Field>) {
    forall k :: 0 <= k < |fs| ==> fs[k].extension
  }

  // The fields for which there are values.
  function Given(a: Abi, d: nat, fs: seq<Field>, vs: seq<Value>, ext: bool): (b: Option<Bytes>) {
    if fs == [] || vs == [] then Some([])
    else Join(Encode(a, d, fs[0].ty, vs[0], ext && |fs| == 1), Given(a, d, fs[1..], vs[1..], ext))
  }

  // The fields for which there are none.
  function Missing(fs: seq<Field>, vs: seq<Value>): (rest: seq<Field>) {
    if |vs| < |fs| then fs[|vs|..] else []
  }

  // How many fields at the front may be absent without ending the object.
  function Optionals(fs: seq<Field>): (n: nat)
    ensures n <= |fs| && forall k :: 0 <= k < n ==> fs[k].ty.Optional? && !fs[k].extension
    ensures n < |fs| ==> !fs[n].ty.Optional? || fs[n].extension
  {
    if fs != [] && fs[0].ty.Optional? && !fs[0].extension then 1 + Optionals(fs[1..]) else 0
  }

  // An object may leave out optional fields and then, where allowed, extensions to the end.
  ghost predicate Omissible(d: nat, fs: seq<Field>, ext: bool) {
    var n := Optionals(fs);
    (n > 0 ==> d > 0) && (n < |fs| ==> ext && AllExtensions(fs[n..]))
  }

  // A row may only stop at the end or, where allowed, before an extension.
  predicate MayStop(fs: seq<Field>, ext: bool) {
    fs == [] || (fs[0].extension && ext)
  }

  function Zeros(n: nat): (b: Bytes) {
    if n == 0 then [] else [0] + Zeros(n - 1)
  }

  lemma JoinAssociates(x: Option<Bytes>, y: Option<Bytes>, z: Option<Bytes>)
    ensures Join(Join(x, y), z) == Join(x, Join(y, z))
  {
    if x.Some? && y.Some? && z.Some? { assert (x.value + y.value) + z.value == x.value + (y.value + z.value); }
  }

  lemma NullOptional(a: Abi, d: nat, t: Type, ext: bool)
    requires t.Optional?
    ensures Encode(a, d, t, Null, ext) == if d > 0 then Some([0]) else None
  {
    assert Resolve(a, t) == t;
  }

  lemma {:induction false} AbsentFields(a: Abi, d: nat, fs: seq<Field>, ms: seq<Member>, ext: bool)
    requires forall k :: 0 <= k < |fs| ==> Lookup(ms, fs[k].name) == None
    ensures EncodeFields(a, d, fs, ms, ext, false) == if Omissible(d, fs, ext) then Some(Zeros(Optionals(fs))) else None
    decreases |fs|
  {
    hide Lookup, Encode;
    if fs == [] {
    } else if Optionals(fs) > 0 {
      AbsentFields(a, d, fs[1..], ms, ext);
      assert fs[1..][Optionals(fs[1..])..] == fs[Optionals(fs)..];
      NullOptional(a, d, fs[0].ty, ext && |fs| == 1);
    } else {
      ClosedWritesNothing(a, d, fs[1..], ms, ext);
      assert fs[0..] == fs;
      assert AllExtensions(fs) <==> fs[0].extension && AllExtensions(fs[1..]);
    }
  }

  /** What the array of some values and the object with those fields encode to, for any number
      of values. Both write the given fields. The array is refused unless the fields end there
      or an extension comes next, and no field after that is looked at; values beyond the last
      field are ignored. The object is refused unless what is missing may be left out, and
      writes a zero for each optional field missing. */
  lemma {:induction false} RowAndObject(a: Abi, d: nat, fs: seq<Field>, vs: seq<Value>, ms: seq<Member>, ext: bool)
    requires Names(fs, vs, ms)
    ensures var given, rest := Given(a, d, fs, vs, ext), Missing(fs, vs);
      && EncodeRow(a, d, fs, vs, ext) == (if MayStop(rest, ext) then given else None)
      && EncodeFields(a, d, fs, ms, ext, false) ==
         if Omissible(d, rest, ext) then Join(given, Some(Zeros(Optionals(rest)))) else None
    decreases |fs|
  {
    hide Encode, Lookup, Optionals, Omissible, Zeros;
    if fs == [] || vs == [] {
      assert fs[0..] == fs;
      AbsentFields(a, d, fs, ms, ext);
      assert [] + Zeros(Optionals(fs)) == Zeros(Optionals(fs));
    } else {
      RowAndObject(a, d, fs[1..], vs[1..], ms, ext);
      assert Missing(fs[1..], vs[1..]) == Missing(fs, vs);
      JoinAssociates(Encode(a, d, fs[0].ty, vs[0], ext && |fs| == 1), Given(a, d, fs[1..], vs[1..], ext),
                     Some(Zeros(Optionals(Missing(fs, vs)))));
    }
  }

  /** The array means the object if and only if the given fields cannot be written, or no
      field is missing, or an extension comes next and extensions may not be left out or only
      extensions are missing, or a plain field comes next without which there is no object. */
  lemma RowMeansObject(a: Abi, d: nat, fs: seq<Field>, vs: seq<Value>, ms: seq<Member>, ext: bool)
    requires Names(fs, vs, ms)
    ensures var rest := Missing(fs, vs);
      EncodeRow(a, d, fs, vs, ext) == EncodeFields(a, d, fs, ms, ext, false) <==>
        || Given(a, d, fs, vs, ext).None?
        || rest == []
        || (if rest[0].extension then !ext || AllExtensions(rest) else !Omissible(d, rest, ext))
  {
    hide Given, EncodeRow, EncodeFields, Missing;
    RowAndObject(a, d, fs, vs, ms, ext);
    var given, rest := Given(a, d, fs, vs, ext), Missing(fs, vs);
    if given.Some? { assert given.value + [] == given.value; }
    assert rest[0..] == rest;
  }

  /** A row that stops before an optional field is refused, where the object gets a zero. */
  lemma ShortRowIsRefused(n: Byte)
    ensures var a, fs := SampleAbi(Named("uint8")), [Field("i0", Named("uint8"), false), Field("i1", Optional(Named("uint8")), false)];
      && EncodeRow(a, 1, fs, [Num(n)], true) == None
      && EncodeFields(a, 1, fs, [Member("i0", Num(n))], true, false) == Some([n, 0])
  {
    var a, u, ms := SampleAbi(Named("uint8")), Named("uint8"), [Member("i0", Num(n))];
    var fs := [Field("i0", u, false), Field("i1", Optional(u), false)];
    assert ms[1..] == [] && Lookup(ms, "i1") == None;
    RowAndObject(a, 1, fs, [Num(n)], ms, true);
    PackByte(n);
    assert Encode(a, 1, u, Num(n), false) == Some([n]);
    assert fs[1..][1..] == [] && [Num(n)][1..] == [];
    assert Given(a, 1, fs, [Num(n)], true) == Some([n]);
    assert Missing(fs, [Num(n)]) == fs[1..];
    assert Optionals(fs[1..]) == 1 && Zeros(1) == [0];
    var one: Bytes := [n];
    assert one + [0] == [n, 0];
  }

  /** With an extension before a plain field, the array of the first value is accepted and the
      object of the first field refused. */
  lemma ShortRowIsAccepted(n: Byte)
    ensures var fs := [Field("i0", Named("uint8"), false), Field("i1", Named("uint8"), true), Field("i2", Named("uint8"), false)];
      && EncodeRow(SampleAbi(Named("uint8")), 1, fs, [Num(n)], true) == Some([n])
      && EncodeFields(SampleAbi(Named("uint8")), 1, fs, [Member("i0", Num(n))], true, false) == None
  {
    var a, u, ms := SampleAbi(Named("uint8")), Named("uint8"), [Member("i0", Num(n))];
    var fs := [Field("i0", u, false), Field("i1", u, true), Field("i2", u, false)];
    PackByte(n);
    assert Encode(a, 1, u, Num(n), false) == Some([n]);
    var one: Bytes := [n];
    assert one + [] == one;
    assert [Num(n)][1..] == [];
    assert EncodeRow(a, 1, fs[1..], [], true) == Some([]);
    assert ms[1..] == [] && Lookup(ms, "i1") == None && Lookup(ms, "i2") == None;
    assert fs[1..][1..][0] == fs[2];
    assert EncodeFields(a, 1, fs[1..][1..], ms, true, true) == None;
    assert EncodeFields(a, 1, fs[1..], ms, true, false) == None;
  }

  // ---- What the encoder refuses ----

  /** Whatever is accepted has the shape of its type: an array of the declared length, a value
      in range, a pair of a known tag and a value, an object, or for a struct without a base an
      array. */
  lemma AcceptedHasShape(a: Abi, d: nat, t: Type, v: Value, ext: bool)
    requires Encode(a, d, t, v, ext).Some?
    ensures d > 0
    ensures match Resolve(a, t)
      case Fixed(n, _) => v.List? && |v.items| == n
      case Array(_) => v.List?
      case Optional(e) => v != Null && IsBuiltIn(a, e) ==> PrimOk(a.builtIns[e.name], v)
      case Named(n) =>
        if n in a.builtIns then PrimOk(a.builtIns[n], v)
        else if n in a.variants then
          && v.List? && |v.items| == 2 && v.items[0].Text?
          && exists i :: 0 <= i < |a.variants[n]| && a.variants[n][i].tag == v.items[0].text
        else n in a.structs && (v.Object? || (v.List? && a.structs[n].base.None?))
  {
    hide EncodeAll, EncodeFields, EncodeRow, PackAll, PackPrim, Resolve, PrimOk;
  }

  /** Before a built-in value the decoder takes no presence flag but zero and one. */
  lemma BuiltInFlagIsChecked(a: Abi, d: nat, t: Type, e: Type, s: Bytes)
    requires Resolve(a, t) == Optional(e) && IsBuiltIn(a, e) && (s == [] || s[0] > 1)
    ensures Decode(a, d, t, s) == None
  {
  }

  // ---- When every value is readable ----

  predicate SolidType(t: Type) {
    match t
    case Named(_) => true
    case Array(e) => SolidType(e)
    case Optional(e) => SolidType(e)
    case Fixed(n, e) => n > 0 && SolidType(e)
  }

  // No fixed array is empty, and every struct starts with a field that is not an extension.
  ghost predicate Solid(a: Abi) {
    && (forall n :: n in a.typedefs ==> SolidType(a.typedefs[n]))
    && (forall n :: n in a.structs ==> SolidFields(a.structs[n].fields) && a.structs[n].fields != []
                                       && !a.structs[n].fields[0].extension)
    && (forall n :: n in a.variants ==> SolidChoices(a.variants[n]))
  }

  ghost predicate SolidFields(fs: seq<Field>) {
    forall k :: 0 <= k < |fs| ==> SolidType(fs[k].ty)
  }

  ghost predicate SolidChoices(cs: seq<Choice>) {
    forall k :: 0 <= k < |cs| ==> SolidType(cs[k].ty)
  }

  lemma {:induction false} FollowIsSolid(a: Abi, t: Type, n: nat)
    requires Solid(a) && SolidType(t)
    ensures var u := Follow(a, t, n); u.Some? ==> SolidType(u.value)
    decreases n
  {
    if n == 0 || !t.Named? || t.name !in a.typedefs {
    } else {
      FollowIsSolid(a, a.typedefs[t.name], n - 1);
    }
  }

  /** Over tables without empty fixed arrays and without structs that may be empty, every
      conforming value encodes to some bytes and is readable, at the end of the data too. */
  lemma {:induction false} SolidIsReadable(a: Abi, d: nat, t: Type, v: Value, ext: bool, more: bool)
    requires Solid(a) && SolidType(t) && Conforms(a, d, t, v, ext)
    ensures Len(Encode(a, d, t, v, ext)) > 0 && Readable(a, d, t, v, ext, more)
    decreases d, 2
  {
    hide Encode, Readable, Conforms, Solid, SolidType, Resolve, Len;
    FollowIsSolid(a, t, |a.typedefs|);
    ResolvedIsSolid(a, t);
    SolidCases(a, d, t, v, ext, more);
  }

  lemma ResolvedIsSolid(a: Abi, t: Type)
    requires SolidType(t) && var u := Follow(a, t, |a.typedefs|); u.Some? ==> SolidType(u.value)
    ensures SolidType(Resolve(a, t))
  {
    hide Follow, SolidType;
  }

  lemma {:induction false} SolidCases(a: Abi, d: nat, t: Type, v: Value, ext: bool, more: bool)
    requires Solid(a) && SolidType(Resolve(a, t)) && Conforms(a, d, t, v, ext)
    ensures Len(Encode(a, d, t, v, ext)) > 0 && Readable(a, d, t, v, ext, more)
    decreases d, 1
  {
    hide Encode, Readable, Conforms, Resolve, SolidType, Solid, Len;
    match Resolve(a, t) {
      case Named(n) => SolidNamed(a, d, t, n, v, ext, more);
      case _ => SolidShape(a, d, t, v, ext, more);
    }
  }

  lemma {:induction false} SolidShape(a: Abi, d: nat, t: Type, v: Value, ext: bool, more: bool)
    requires Solid(a) && SolidType(Resolve(a, t)) && Conforms(a, d, t, v, ext) && !Resolve(a, t).Named?
    ensures Len(Encode(a, d, t, v, ext)) > 0 && Readable(a, d, t, v, ext, more)
    decreases d, 0
  {
    hide Resolve, PackPrim, PrimOk, PackAll, EncodeAll, ConformsAll, ReadableAll, AllOk, VarBytes, Solid;
    hide EncodeStruct, ConformsStruct, ReadableStruct, EncodeChoice, ConformsChoice, ReadableChoice;
    EncodesAtAll(a, d, t, v, ext);
    match Resolve(a, t) {
      case Fixed(n, u) => SolidItems(a, d - 1, u, v.items, more);
      case Array(u) => if !IsBuiltIn(a, u) { SolidItems(a, d - 1, u, v.items, more); }
      case Optional(u) => if !v.Null? && !IsBuiltIn(a, u) { SolidIsReadable(a, d - 1, u, v, ext, more); }
    }
  }

  lemma EncodesAtAll(a: Abi, d: nat, t: Type, v: Value, ext: bool)
    requires Conforms(a, d, t, v, ext)
    ensures Encode(a, d, t, v, ext).Some?
  {
    hide Encode, Conforms, Readable, Need, Decode;
    RoundTrip(a, d, 0, t, v, ext, []);
  }

  lemma {:induction false} SolidNamed(a: Abi, d: nat, t: Type, n: string, v: Value, ext: bool, more: bool)
    requires Solid(a) && Resolve(a, t) == Named(n) && Conforms(a, d, t, v, ext)
    ensures Len(Encode(a, d, t, v, ext)) > 0 && Readable(a, d, t, v, ext, more)
    decreases d, 0, 1
  {
    hide Resolve, PackPrim, PrimOk, Solid, DistinctKeys;
    hide EncodeStruct, ConformsStruct, ReadableStruct, EncodeChoice, ConformsChoice, ReadableChoice;
    if n in a.builtIns {
    } else if n in a.variants {
      SolidChoice(a, d, n, v, ext, more);
    } else {
      SolidStruct(a, d, n, v.members, |v.members|, ext, more);
    }
  }

  lemma {:induction false} SolidItems(a: Abi, d: nat, t: Type, vs: seq<Value>, more: bool)
    requires Solid(a) && SolidType(t) && ConformsAll(a, d, t, vs)
    ensures ReadableAll(a, d, t, vs, more) && (vs != [] ==> Len(EncodeAll(a, d, t, vs)) > 0)
    decreases d, 3 + |vs|
  {
    hide Encode, Readable, Conforms, Solid, SolidType;
    AllRoundTrip(a, d, 0, t, vs, []);
    if vs == [] {
    } else {
      SolidIsReadable(a, d, t, vs[0], false, more || Len(EncodeAll(a, d, t, vs[1..])) > 0);
      SolidItems(a, d, t, vs[1..], more);
    }
  }

  lemma {:induction false} SolidChoice(a: Abi, d: nat, n: string, v: Value, ext: bool, more: bool)
    requires Solid(a) && d > 0 && n in a.variants && ConformsChoice(a, d, a.variants[n], v, ext)
    ensures ReadableChoice(a, d, a.variants[n], v, ext, more) && Len(EncodeChoice(a, d, a.variants[n], v, ext)) > 0
    decreases d, 0, 0
  {
    hide Encode, Readable, Conforms, SolidType, VarBytes, FindTag;
    var cs := a.variants[n];
    var i := FindTag(cs, v.items[0].text).value;
    SolidIsReadable(a, d - 1, cs[i].ty, v.items[1], ext, more);
  }

  lemma {:induction false} SolidStruct(a: Abi, d: nat, n: string, ms: seq<Member>, j: nat, ext: bool, more: bool)
    requires Solid(a) && j <= |ms| && DistinctKeys(ms) && ConformsStruct(a, d, n, ms, j, ext)
    ensures ReadableStruct(a, d, n, ms, j, ext, more) && j > 0 && IsStruct(a, n)
    ensures Len(EncodeStruct(a, d, a.structs[n], Object(ms), ext)) > 0
    decreases d, 0, 0
  {
    hide EncodeFields, ReadableFields, Resolve, DistinctKeys, SolidType, Encode;
    StructRoundTrip(a, d, 0, n, ms, j, ext, []);
    var st := a.structs[n];
    if st.base.None? {
      SolidMembers(a, d - 1, st.fields, ms, 0, j, ext, more);
    } else {
      var b := Resolve(a, Named(st.base.value)).name;
      var k := Span(a, d - 1, b);
      SolidStruct(a, d - 1, b, ms, k, false, more || Len(EncodeFields(a, d - 1, st.fields, ms, ext, false)) > 0);
      SolidMembers(a, d - 1, st.fields, ms, k, j, ext, more);
      ResolveTwice(a, Named(st.base.value));
      BaseEncodes(a, d - 1, b, ms);
    }
  }

  lemma {:induction false} SolidMembers(a: Abi, d: nat, fs: seq<Field>, ms: seq<Member>, i: nat, j: nat,
                                        ext: bool, more: bool)
    requires Solid(a) && SolidFields(fs) && i <= j <= |ms| && DistinctKeys(ms) && ConformsFields(a, d, fs, ms, i, j, ext)
    ensures ReadableFields(a, d, fs, ms, i, j, ext, more)
    ensures i < j ==> Len(EncodeFields(a, d, fs, ms, ext, false)) > 0
    decreases d, 3 + |fs|
  {
    hide Encode, Readable, Conforms, Solid, SolidType, Lookup, DistinctKeys;
    if i == j {
    } else {
      FieldsRoundTrip(a, d, 0, fs, ms, i, j, ext, []);
      LookupAt(ms, i);
      SolidIsReadable(a, d, fs[0].ty, ms[i].value, ext && |fs| == 1,
                      more || Len(EncodeFields(a, d, fs[1..], ms, ext, false)) > 0);
      SolidMembers(a, d, fs[1..], ms, i + 1, j, ext, more);
    }
  }

  // ---- Where the round trip fails ----

  function SampleAbi(t: Type): (a: Abi) {
    Abi(map["uint8" := Unsigned(1)], map[], map["s" := Struct(None, [Field("a", t, false)])], map[])
  }

  /** A struct whose only field is an array of fixed length zero encodes to no bytes, which
      the decoder refuses at any depth. */
  lemma EmptyFieldIsLost(e: nat)
    ensures var a, v := SampleAbi(Fixed(0, Named("uint8"))), Object([Member("a", List([]))]);
      && Conforms(a, 2, Named("s"), v, false)
      && Encode(a, 2, Named("s"), v, false) == Some([])
      && Decode(a, e, Named("s"), []) == None
  {
    var t := Fixed(0, Named("uint8"));
    var a, v, fs := SampleAbi(t), Object([Member("a", List([]))]), [Field("a", t, false)];
    assert fs[1..] == [];
    assert Lookup(v.members, "a") == Some(List([]));
    assert ConformsFields(a, 1, fs, v.members, 0, 1, false);
    assert Encode(a, 1, t, List([]), false) == Some([]);
    var none: Bytes := [];
    assert none + none == none;
    assert EncodeFields(a, 1, fs[1..], v.members, false, false) == Some(none);
    assert EncodeFields(a, 1, fs, v.members, false, false) == Some(none);
    if e >= 2 { assert DecodeFields(a, e - 2, fs, [], []) == None; }
  }

  /** The decoder spends two levels of recursion on a struct where the encoder spends one. */
  lemma DepthDiffers(n: Byte)
    ensures var a, v := SampleAbi(Named("uint8")), Object([Member("a", Num(n))]);
      && Encode(a, 2, Named("s"), v, false) == Some([n])
      && Decode(a, 2, Named("s"), [n]) == None
      && Decode(a, 3, Named("s"), [n]) == Some((v, []))
  {
    var t := Named("uint8");
    var a, v, fs := SampleAbi(t), Object([Member("a", Num(n))]), [Field("a", t, false)];
    assert fs[1..] == [];
    PackByte(n);
    assert Lookup(v.members, "a") == Some(Num(n));
    assert Encode(a, 1, t, Num(n), false) == Some([n]);
    assert EncodeFields(a, 1, fs, v.members, false, false) == Some([n]);
    var none: Bytes := [];
    assert none + [n] == [n];
    assert DecodeFields(a, 0, fs, [n], []) == None;
    assert DecodeFields(a, 1, fs, [n], []) == Some((v.members, []));
  }

  lemma PackByte(n: Byte)
    ensures Pack(Unsigned(1), Num(n)) == Some([n])
    ensures UnpackPrim(Unsigned(1), [n]) == Some((Num(n), []))
  {
    assert Pow256(1) == 256 * Pow256(0);
    assert LittleEndian(n / 256, 0) == [] && LittleEndian(n, 1) == [n];
    PrimRoundTrip(Unsigned(1), Num(n), []);
    assert [n] + [] == [n];
  }
}
