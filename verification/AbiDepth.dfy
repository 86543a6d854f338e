// The recursion limit: allowing more depth changes no result, and what one common limit
// means for the round trip.
module AbiDepth {
  import opened Options
  import opened AbiCodec
  import opened AbiRoundTrip

  // What succeeded with less depth is unchanged.
  ghost predicate Kept<T>(less: Option<T>, more: Option<T>) {
    less.Some? ==> more == less
  }

  // ---- Encoding ----

  /** More depth does not change a successful encoding. */
  lemma {:induction false} EncodeDeeper(a: Abi, d: nat, e: nat, t: Type, v: Value, ext: bool)
    requires d <= e
    ensures Kept(Encode(a, d, t, v, ext), Encode(a, e, t, v, ext))
    decreases d, 1
  {
    hide Resolve, EncodeAll, EncodeChoice, EncodeStruct, PackAll, Pack, VarBytes;
    if d == 0 {
    } else {
      match Resolve(a, t) {
        case Fixed(n, u) => if v.List? { EncodeAllDeeper(a, d - 1, e - 1, u, v.items); }
        case Array(u) => if v.List? { EncodeAllDeeper(a, d - 1, e - 1, u, v.items); }
        case Optional(u) => EncodeDeeper(a, d - 1, e - 1, u, v, ext);
        case Named(n) =>
          if n in a.variants { EncodeChoiceDeeper(a, d, e, a.variants[n], v, ext); }
          if n in a.structs { EncodeStructDeeper(a, d, e, a.structs[n], v, ext); }
      }
    }
  }

  lemma {:induction false} EncodeAllDeeper(a: Abi, d: nat, e: nat, t: Type, vs: seq<Value>)
    requires d <= e
    ensures Kept(EncodeAll(a, d, t, vs), EncodeAll(a, e, t, vs))
    decreases d, 2 + |vs|
  {
    hide Encode;
    if vs == [] {
    } else {
      EncodeDeeper(a, d, e, t, vs[0], false);
      EncodeAllDeeper(a, d, e, t, vs[1..]);
    }
  }

  lemma {:induction false} EncodeChoiceDeeper(a: Abi, d: nat, e: nat, cs: seq<Choice>, v: Value, ext: bool)
    requires 0 < d <= e
    ensures Kept(EncodeChoice(a, d, cs, v, ext), EncodeChoice(a, e, cs, v, ext))
    decreases d, 0
  {
    hide Encode, FindTag, VarBytes;
    if v.List? && |v.items| == 2 && v.items[0].Text? && FindTag(cs, v.items[0].text).Some? {
      EncodeDeeper(a, d - 1, e - 1, cs[FindTag(cs, v.items[0].text).value].ty, v.items[1], ext);
    }
  }

  lemma {:induction false} EncodeStructDeeper(a: Abi, d: nat, e: nat, st: Struct, v: Value, ext: bool)
    requires 0 < d <= e
    ensures Kept(EncodeStruct(a, d, st, v, ext), EncodeStruct(a, e, st, v, ext))
    decreases d, 0
  {
    hide Encode, EncodeFields, EncodeRow, Resolve;
    if v.Object? {
      if st.base.Some? { EncodeDeeper(a, d - 1, e - 1, Resolve(a, Named(st.base.value)), v, false); }
      EncodeFieldsDeeper(a, d - 1, e - 1, st.fields, v.members, ext, false);
    } else if v.List? {
      EncodeRowDeeper(a, d - 1, e - 1, st.fields, v.items, ext);
    }
  }

  lemma {:induction false} EncodeFieldsDeeper(a: Abi, d: nat, e: nat, fs: seq<Field>, ms: seq<Member>, ext: bool, closed: bool)
    requires d <= e
    ensures Kept(EncodeFields(a, d, fs, ms, ext, closed), EncodeFields(a, e, fs, ms, ext, closed))
    decreases d, 2 + |fs|
  {
    hide Encode, Lookup;
    if fs == [] {
    } else {
      var given := Lookup(ms, fs[0].name);
      EncodeDeeper(a, d, e, fs[0].ty, if given.Some? then given.value else Null, ext && |fs| == 1);
      EncodeFieldsDeeper(a, d, e, fs[1..], ms, ext, closed);
      EncodeFieldsDeeper(a, d, e, fs[1..], ms, ext, true);
    }
  }

  lemma {:induction false} EncodeRowDeeper(a: Abi, d: nat, e: nat, fs: seq<Field>, vs: seq<Value>, ext: bool)
    requires d <= e
    ensures Kept(EncodeRow(a, d, fs, vs, ext), EncodeRow(a, e, fs, vs, ext))
    decreases d, 2 + |fs|
  {
    hide Encode;
    if fs == [] || vs == [] {
    } else {
      EncodeDeeper(a, d, e, fs[0].ty, vs[0], ext && |fs| == 1);
      EncodeRowDeeper(a, d, e, fs[1..], vs[1..], ext);
    }
  }

  // ---- Decoding ----

  /** More depth does not change a successful decoding. */
  lemma {:induction false} DecodeDeeper(a: Abi, d: nat, e: nat, t: Type, s: Bytes)
    requires d <= e
    ensures Kept(Decode(a, d, t, s), Decode(a, e, t, s))
    decreases d, 1
  {
    hide Resolve, DecodeAll, DecodeStruct, DecodeChoice, UnpackAll, UnpackPrim, ReadVarUint;
    if d == 0 {
    } else {
      match Resolve(a, t) {
        case Fixed(n, u) => DecodeAllDeeper(a, d - 1, e - 1, u, n, s);
        case Array(u) =>
          if ReadVarUint(s).Some? {
            DecodeAllDeeper(a, d - 1, e - 1, u, ReadVarUint(s).value.0, ReadVarUint(s).value.1);
          }
        case Optional(u) => if s != [] { DecodeDeeper(a, d - 1, e - 1, u, s[1..]); }
        case Named(n) =>
          if n in a.variants { DecodeChoiceDeeper(a, d, e, a.variants[n], s); }
          DecodeStructDeeper(a, d - 1, e - 1, n, s, []);
      }
    }
  }

  lemma {:induction false} DecodeAllDeeper(a: Abi, d: nat, e: nat, t: Type, n: nat, s: Bytes)
    requires d <= e
    ensures Kept(DecodeAll(a, d, t, n, s), DecodeAll(a, e, t, n, s))
    decreases d, 2 + n
  {
    hide Decode;
    if n == 0 {
    } else {
      DecodeDeeper(a, d, e, t, s);
      var r := Decode(a, d, t, s);
      if r.Some? { DecodeAllDeeper(a, d, e, t, n - 1, r.value.1); }
    }
  }

  lemma {:induction false} DecodeChoiceDeeper(a: Abi, d: nat, e: nat, cs: seq<Choice>, s: Bytes)
    requires 0 < d <= e
    ensures Kept(DecodeChoice(a, d, cs, s), DecodeChoice(a, e, cs, s))
    decreases d, 0
  {
    hide Decode, ReadVarUint;
    var r := ReadVarUint(s);
    if r.Some? && r.value.0 < |cs| { DecodeDeeper(a, d - 1, e - 1, cs[r.value.0].ty, r.value.1); }
  }

  lemma {:induction false} DecodeStructDeeper(a: Abi, d: nat, e: nat, name: string, s: Bytes, ms: seq<Member>)
    requires d <= e
    ensures Kept(DecodeStruct(a, d, name, s, ms), DecodeStruct(a, e, name, s, ms))
    decreases d, 0
  {
    hide DecodeFields, Resolve;
    if d == 0 || name !in a.structs {
    } else {
      var st := a.structs[name];
      if st.base.None? {
        DecodeFieldsDeeper(a, d - 1, e - 1, st.fields, s, ms);
      } else if Resolve(a, Named(st.base.value)).Named? {
        var b := Resolve(a, Named(st.base.value)).name;
        DecodeStructDeeper(a, d - 1, e - 1, b, s, ms);
        var r := DecodeStruct(a, d - 1, b, s, ms);
        if r.Some? { DecodeFieldsDeeper(a, d - 1, e - 1, st.fields, r.value.1, r.value.0); }
      }
    }
  }

  lemma {:induction false} DecodeFieldsDeeper(a: Abi, d: nat, e: nat, fs: seq<Field>, s: Bytes, ms: seq<Member>)
    requires d <= e
    ensures Kept(DecodeFields(a, d, fs, s, ms), DecodeFields(a, e, fs, s, ms))
    decreases d, 2 + |fs|
  {
    hide Decode, Put;
    if fs == [] {
    } else {
      if s == [] {
        DecodeFieldsDeeper(a, d, e, fs[1..], s, ms);
      } else {
        DecodeDeeper(a, d, e, fs[0].ty, s);
        var r := Decode(a, d, fs[0].ty, s);
        if r.Some? { DecodeFieldsDeeper(a, d, e, fs[1..], r.value.1, Put(ms, fs[0].name, r.value.0)); }
      }
    }
  }

  // ---- One limit for both directions ----

  /** A readable value is restored if the decoder is allowed the depth the value needs, and
      with any less depth nothing is decoded at all. */
  lemma RestoredExactly(a: Abi, d: nat, e: nat, t: Type, v: Value, ext: bool, rest: Bytes)
    requires Conforms(a, d, t, v, ext) && (ext ==> rest == []) && Readable(a, d, t, v, ext, rest != [])
    ensures Encode(a, d, t, v, ext).Some?
    ensures Decode(a, e, t, Encode(a, d, t, v, ext).value + rest) ==
      if e >= Need(a, d, t, v, ext) then Some((v, rest)) else None
  {
    hide Encode, Decode, Conforms, Readable, Need;
    RoundTrip(a, d, e, t, v, ext, rest);
    RoundTrip(a, d, Max(e, Need(a, d, t, v, ext)), t, v, ext, rest);
    DecodeDeeper(a, e, Max(e, Need(a, d, t, v, ext)), t, Encode(a, d, t, v, ext).value + rest);
  }

  /** With the limit the source has, the same in both directions: a readable value within the
      limit is restored if and only if the limit is the depth it needs. */
  lemma OneLimit(a: Abi, limit: nat, t: Type, v: Value, ext: bool)
    requires Conforms(a, limit, t, v, ext) && Readable(a, limit, t, v, ext, false)
    ensures Encode(a, limit, t, v, ext).Some?
    ensures Decode(a, limit, t, Encode(a, limit, t, v, ext).value) == Some((v, [])) <==> limit >= Need(a, limit, t, v, ext)
  {
    hide Encode, Decode, Conforms, Readable, Need;
    RestoredExactly(a, limit, limit, t, v, ext, []);
    assert Encode(a, limit, t, v, ext).value + [] == Encode(a, limit, t, v, ext).value;
  }
}
