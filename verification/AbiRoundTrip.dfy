// Encoding followed by decoding.
module AbiRoundTrip {
  import opened Options
  import opened AbiCodec

  // ---- Values in the form the decoder gives them ----

  ghost predicate DistinctKeys(ms: seq<Member>) {
    forall i, j :: 0 <= i < j < |ms| ==> ms[i].key != ms[j].key
  }

  // The fields a struct has along its chain of bases.
  function Span(a: Abi, d: nat, name: string): (n: nat) {
    if d == 0 || name !in a.structs then 0
    else
      var st := a.structs[name];
      |st.fields| +
      if st.base.None? then 0
      else match Resolve(a, Named(st.base.value))
        case Named(b) => Span(a, d - 1, b)
        case _ => 0
  }

  // v is a value of type t, nested no deeper than d. Where ext holds the value stands at
  // the end of the data and may leave trailing extensions out.
  ghost predicate Conforms(a: Abi, d: nat, t: Type, v: Value, ext: bool)
    decreases d, 1
  {
    d > 0 &&
    match Resolve(a, t)
    case Fixed(n, e) => v.List? && |v.items| == n && ConformsAll(a, d - 1, e, v.items)
    case Array(e) =>
      && v.List? && |v.items| < UINT32_LIMIT
      && (if IsBuiltIn(a, e) then AllOk(a.builtIns[e.name], v.items) else ConformsAll(a, d - 1, e, v.items))
    case Optional(e) =>
      v.Null? || (if IsBuiltIn(a, e) then PrimOk(a.builtIns[e.name], v) else Conforms(a, d - 1, e, v, ext))
    case Named(n) =>
      if n in a.builtIns then PrimOk(a.builtIns[n], v)
      else if n in a.variants then ConformsChoice(a, d, a.variants[n], v, ext)
      else v.Object? && DistinctKeys(v.members) && ConformsStruct(a, d, n, v.members, |v.members|, ext)
  }

  ghost predicate AllOk(p: Prim, vs: seq<Value>) {
    vs == [] || (PrimOk(p, vs[0]) && AllOk(p, vs[1..]))
  }

  ghost predicate ConformsAll(a: Abi, d: nat, e: Type, vs: seq<Value>)
    decreases d, 2 + |vs|
  {
    vs == [] || (Conforms(a, d, e, vs[0], false) && ConformsAll(a, d, e, vs[1..]))
  }

  ghost predicate ConformsChoice(a: Abi, d: nat, cs: seq<Choice>, v: Value, ext: bool)
    requires d > 0
    decreases d - 1, 2
  {
    && v.List? && |v.items| == 2 && v.items[0].Text?
    && var i := FindTag(cs, v.items[0].text);
       i.Some? && i.value < UINT32_LIMIT && Conforms(a, d - 1, cs[i.value].ty, v.items[1], ext)
  }

  // The members up to j are the fields of the struct and its bases, bases first.
  ghost predicate ConformsStruct(a: Abi, d: nat, name: string, ms: seq<Member>, j: nat, ext: bool)
    requires j <= |ms|
    decreases d, 0
  {
    && d > 0 && IsStruct(a, name)
    && var st := a.structs[name];
       if st.base.None? then ConformsFields(a, d - 1, st.fields, ms, 0, j, ext)
       else match Resolve(a, Named(st.base.value))
         case Named(b) =>
           var k := Span(a, d - 1, b);
           k <= j && ConformsStruct(a, d - 1, b, ms, k, false) && ConformsFields(a, d - 1, st.fields, ms, k, j, ext)
         case _ => false
  }

  ghost predicate ConformsFields(a: Abi, d: nat, fs: seq<Field>, ms: seq<Member>, i: nat, j: nat, ext: bool)
    requires i <= j <= |ms|
    decreases d, 2 + |fs|
  {
    if fs == [] then i == j
    else if i == j then ext && Absent(fs, ms)
    else
      && ms[i].key == fs[0].name
      && Conforms(a, d, fs[0].ty, ms[i].value, ext && |fs| == 1)
      && ConformsFields(a, d, fs[1..], ms, i + 1, j, ext)
  }

  ghost predicate Absent(fs: seq<Field>, ms: seq<Member>) {
    forall k :: 0 <= k < |fs| ==> fs[k].extension && Lookup(ms, fs[k].name).None?
  }

  // ---- Objects ----

  lemma {:induction false} LookupAt(ms: seq<Member>, i: nat)
    requires i < |ms| && DistinctKeys(ms)
    ensures Lookup(ms, ms[i].key) == Some(ms[i].value)
  {
    if i == 0 {
    } else {
      LookupAt(ms[1..], i - 1);
    }
  }

  lemma {:induction false} PutAppends(ms: seq<Member>, i: nat)
    requires i < |ms| && DistinctKeys(ms)
    ensures Put(ms[..i], ms[i].key, ms[i].value) == ms[..i + 1]
  {
    if i == 0 {
    } else {
      PutAppends(ms[1..], i - 1);
      assert ms[..i][1..] == ms[1..][..i - 1];
      assert ms[1..][..i] == ms[..i + 1][1..];
    }
  }

  lemma {:induction false} LookupPut(ms: seq<Member>, key: string, v: Value, other: string)
    ensures Lookup(Put(ms, key, v), other) == if other == key then Some(v) else Lookup(ms, other)
  {
    if ms == [] {
    } else {
      var ns := Put(ms, key, v);
      if ms[0].key != key {
        LookupPut(ms[1..], key, v, other);
        assert ns[1..] == Put(ms[1..], key, v);
      } else {
        assert ns[1..] == ms[1..];
      }
    }
  }

  // Fields of another name leave a member alone.
  lemma {:induction false} FieldsKeep(a: Abi, d: nat, fs: seq<Field>, s: Bytes, ms: seq<Member>, key: string)
    requires forall k :: 0 <= k < |fs| ==> fs[k].name != key
    ensures var r := DecodeFields(a, d, fs, s, ms);
      r.Some? ==> Lookup(r.value.0, key) == Lookup(ms, key)
    decreases |fs|
  {
    hide Decode, Lookup, Put;
    if fs == [] {
    } else {
      if s == [] {
        if fs[0].extension { FieldsKeep(a, d, fs[1..], s, ms, key); }
      } else {
        var r := Decode(a, d, fs[0].ty, s);
        if r.Some? {
          LookupPut(ms, fs[0].name, r.value.0, key);
          FieldsKeep(a, d, fs[1..], r.value.1, Put(ms, fs[0].name, r.value.0), key);
        }
      }
    }
  }

  // The fields still to come have none of the names already placed.
  lemma {:induction false} NamesApart(a: Abi, d: nat, fs: seq<Field>, ms: seq<Member>, i: nat, j: nat, ext: bool,
                                      p: nat, k: nat)
    requires i <= j <= |ms| && DistinctKeys(ms) && ConformsFields(a, d, fs, ms, i, j, ext)
    requires p < i && k < |fs|
    ensures fs[k].name != ms[p].key
    decreases |fs|
  {
    hide Conforms, Lookup;
    if i == j {
      LookupAt(ms, p);
    } else if k > 0 {
      NamesApart(a, d, fs[1..], ms, i + 1, j, ext, p, k - 1);
    }
  }

  // ---- What the decoder can read back ----

  function Len(b: Option<Bytes>): (n: nat) { if b.Some? then |b.value| else 0 }

  // The decoder refuses an empty object, and at the end of the data it takes every field
  // as missing. more says whether data follows the value.
  ghost predicate Readable(a: Abi, d: nat, t: Type, v: Value, ext: bool, more: bool)
    requires Conforms(a, d, t, v, ext)
    decreases d, 1
  {
    match Resolve(a, t)
    case Fixed(n, e) => ReadableAll(a, d - 1, e, v.items, more)
    case Array(e) => IsBuiltIn(a, e) || ReadableAll(a, d - 1, e, v.items, more)
    case Optional(e) => v.Null? || IsBuiltIn(a, e) || Readable(a, d - 1, e, v, ext, more)
    case Named(n) =>
      if n in a.builtIns then true
      else if n in a.variants then
        ReadableChoice(a, d, a.variants[n], v, ext, more)
      else v.members != [] && ReadableStruct(a, d, n, v.members, |v.members|, ext, more)
  }

  ghost predicate ReadableChoice(a: Abi, d: nat, cs: seq<Choice>, v: Value, ext: bool, more: bool)
    requires d > 0 && ConformsChoice(a, d, cs, v, ext)
    decreases d - 1, 2
  {
    Readable(a, d - 1, cs[FindTag(cs, v.items[0].text).value].ty, v.items[1], ext, more)
  }

  ghost predicate ReadableAll(a: Abi, d: nat, e: Type, vs: seq<Value>, more: bool)
    requires ConformsAll(a, d, e, vs)
    decreases d, 2 + |vs|
  {
    vs == [] ||
    (&& Readable(a, d, e, vs[0], false, more || Len(EncodeAll(a, d, e, vs[1..])) > 0)
     && ReadableAll(a, d, e, vs[1..], more))
  }

  ghost predicate ReadableStruct(a: Abi, d: nat, name: string, ms: seq<Member>, j: nat, ext: bool, more: bool)
    requires j <= |ms| && ConformsStruct(a, d, name, ms, j, ext)
    decreases d, 0
  {
    var st := a.structs[name];
    if st.base.None? then ReadableFields(a, d - 1, st.fields, ms, 0, j, ext, more)
    else
      var b := Resolve(a, Named(st.base.value)).name;
      var k := Span(a, d - 1, b);
      && ReadableStruct(a, d - 1, b, ms, k, false, more || Len(EncodeFields(a, d - 1, st.fields, ms, ext, false)) > 0)
      && ReadableFields(a, d - 1, st.fields, ms, k, j, ext, more)
  }

  ghost predicate ReadableFields(a: Abi, d: nat, fs: seq<Field>, ms: seq<Member>, i: nat, j: nat, ext: bool, more: bool)
    requires i <= j <= |ms| && ConformsFields(a, d, fs, ms, i, j, ext)
    decreases d, 2 + |fs|
  {
    i == j ||
    (&& (more || Len(EncodeFields(a, d, fs, ms, ext, false)) > 0)
     && Readable(a, d, fs[0].ty, ms[i].value, ext && |fs| == 1, more || Len(EncodeFields(a, d, fs[1..], ms, ext, false)) > 0)
     && ReadableFields(a, d, fs[1..], ms, i + 1, j, ext, more))
  }

  // ---- The depth the decoder needs ----

  function Max(x: nat, y: nat): (m: nat) { if x < y then y else x }

  // Levels of recursion spent by the decoder: one for each value, and one more for each
  // struct of a chain of bases.
  ghost function Need(a: Abi, d: nat, t: Type, v: Value, ext: bool): (n: nat)
    requires Conforms(a, d, t, v, ext)
    ensures 0 < n <= 2 * d
    decreases d, 1
  {
    match Resolve(a, t)
    case Fixed(n, e) => 1 + NeedAll(a, d - 1, e, v.items)
    case Array(e) => if IsBuiltIn(a, e) then 1 else 1 + NeedAll(a, d - 1, e, v.items)
    case Optional(e) => if v.Null? || IsBuiltIn(a, e) then 1 else 1 + Need(a, d - 1, e, v, ext)
    case Named(n) =>
      if n in a.builtIns then 1
      else if n in a.variants then 1 + NeedChoice(a, d, a.variants[n], v, ext)
      else 1 + NeedStruct(a, d, n, v.members, |v.members|, ext)
  }

  ghost function NeedChoice(a: Abi, d: nat, cs: seq<Choice>, v: Value, ext: bool): (n: nat)
    requires d > 0 && ConformsChoice(a, d, cs, v, ext)
    ensures n <= 2 * (d - 1)
    decreases d - 1, 2
  {
    Need(a, d - 1, cs[FindTag(cs, v.items[0].text).value].ty, v.items[1], ext)
  }

  ghost function NeedAll(a: Abi, d: nat, e: Type, vs: seq<Value>): (n: nat)
    requires ConformsAll(a, d, e, vs)
    ensures n <= 2 * d
    decreases d, 2 + |vs|
  {
    if vs == [] then 0 else Max(Need(a, d, e, vs[0], false), NeedAll(a, d, e, vs[1..]))
  }

  ghost function NeedStruct(a: Abi, d: nat, name: string, ms: seq<Member>, j: nat, ext: bool): (n: nat)
    requires j <= |ms| && ConformsStruct(a, d, name, ms, j, ext)
    ensures 0 < n < 2 * d
    decreases d, 0
  {
    var st := a.structs[name];
    if st.base.None? then 1 + NeedFields(a, d - 1, st.fields, ms, 0, j, ext)
    else
      var b := Resolve(a, Named(st.base.value)).name;
      var k := Span(a, d - 1, b);
      1 + Max(NeedStruct(a, d - 1, b, ms, k, false), NeedFields(a, d - 1, st.fields, ms, k, j, ext))
  }

  ghost function NeedFields(a: Abi, d: nat, fs: seq<Field>, ms: seq<Member>, i: nat, j: nat, ext: bool): (n: nat)
    requires i <= j <= |ms| && ConformsFields(a, d, fs, ms, i, j, ext)
    ensures n <= 2 * d
    decreases d, 2 + |fs|
  {
    if i == j then 0
    else Max(Need(a, d, fs[0].ty, ms[i].value, ext && |fs| == 1), NeedFields(a, d, fs[1..], ms, i + 1, j, ext))
  }

  // ---- Round trip ----

  ghost predicate Restores(r: Option<(Value, Bytes)>, v: Value, rest: Bytes, readable: bool) {
    if readable then r == Some((v, rest)) else r.None? || r.value.0 != v
  }

  // Some member up to j is missing or wrong.
  ghost predicate Spoiled(ns: seq<Member>, ms: seq<Member>, j: nat)
    requires j <= |ms|
  {
    exists p :: 0 <= p < j && Lookup(ns, ms[p].key) != Some(ms[p].value)
  }

  ghost predicate RestoresMembers(r: Option<(seq<Member>, Bytes)>, ms: seq<Member>, j: nat, rest: Bytes, readable: bool)
    requires j <= |ms|
  {
    if readable then r == Some((ms[..j], rest)) else r.None? || Spoiled(r.value.0, ms, j)
  }

  lemma {:induction false} ResolveTwice(a: Abi, t: Type)
    ensures Resolve(a, Resolve(a, t)) == Resolve(a, t)
  {
    FollowEnds(a, t, |a.typedefs|);
  }

  lemma {:induction false} FollowEnds(a: Abi, t: Type, n: nat)
    ensures var u := Follow(a, t, n); u.Some? ==> !(u.value.Named? && u.value.name in a.typedefs)
    decreases n
  {
    if !t.Named? || t.name !in a.typedefs || n == 0 {
    } else {
      FollowEnds(a, a.typedefs[t.name], n - 1);
    }
  }

  // t is n typedefs away from u, which is none.
  ghost predicate LeadsTo(a: Abi, t: Type, n: nat, u: Type)
    decreases n
  {
    if n == 0 then t == u && !(t.Named? && t.name in a.typedefs)
    else t.Named? && t.name in a.typedefs && LeadsTo(a, a.typedefs[t.name], n - 1, u)
  }

  lemma {:induction false} FollowsAll(a: Abi, t: Type, n: nat, u: Type, limit: nat)
    requires LeadsTo(a, t, n, u)
    ensures Follow(a, t, limit) == if n <= limit then Some(u) else None
    decreases n
  {
    if n == 0 {
    } else if limit > 0 {
      FollowsAll(a, a.typedefs[t.name], n - 1, u, limit - 1);
    }
  }

  ghost predicate Further(a: Abi, x: string, n: nat, u: Type) {
    exists m: nat :: m > n && LeadsTo(a, Named(x), m, u)
  }

  // Names further from the end than t are not on its way, so no way is longer than the table.
  lemma {:induction false} WaysAreShort(a: Abi, t: Type, n: nat, u: Type, passed: set<string>)
    requires LeadsTo(a, t, n, u) && passed <= a.typedefs.Keys
    requires forall x :: x in passed ==> Further(a, x, n, u)
    ensures n + |passed| <= |a.typedefs|
    decreases n
  {
    if n == 0 {
      SubsetIsSmaller(passed, a.typedefs.Keys);
    } else {
      if t.name in passed {
        var m: nat :| m > n && LeadsTo(a, Named(t.name), m, u);
        OneDistance(a, t, n, m, u);
      }
      forall x | x in passed + {t.name} ensures Further(a, x, n - 1, u) {
        if x == t.name {
          assert LeadsTo(a, Named(x), n, u);
        } else {
          var m: nat :| m > n && LeadsTo(a, Named(x), m, u);
        }
      }
      WaysAreShort(a, a.typedefs[t.name], n - 1, u, passed + {t.name});
    }
  }

  lemma {:induction false} SubsetIsSmaller(x: set<string>, y: set<string>)
    requires x <= y
    ensures |x| <= |y|
    decreases x
  {
    if x == {} {
    } else {
      var e :| e in x;
      SubsetIsSmaller(x - {e}, y - {e});
    }
  }

  lemma {:induction false} OneDistance(a: Abi, t: Type, n: nat, m: nat, u: Type)
    requires LeadsTo(a, t, n, u) && LeadsTo(a, t, m, u)
    ensures n == m
    decreases n
  {
    if n == 0 || m == 0 {
    } else {
      OneDistance(a, a.typedefs[t.name], n - 1, m - 1, u);
    }
  }

  /** A chain of typedefs of any length is followed to its end. */
  lemma ResolveReachesEnd(a: Abi, t: Type, n: nat, u: Type)
    requires LeadsTo(a, t, n, u)
    ensures Resolve(a, t) == u
  {
    WaysAreShort(a, t, n, u, {});
    FollowsAll(a, t, n, u, |a.typedefs|);
    assert |a.typedefs.Keys| == |a.typedefs|;
  }

  lemma {:induction false} FollowedLeads(a: Abi, t: Type, limit: nat) returns (n: nat)
    requires Follow(a, t, limit).Some?
    ensures LeadsTo(a, t, n, Follow(a, t, limit).value)
    decreases limit
  {
    if t.Named? && t.name in a.typedefs {
      n := FollowedLeads(a, a.typedefs[t.name], limit - 1);
      n := n + 1;
    } else {
      n := 0;
    }
  }

  /** A chain of typedefs without an end leaves the type as it is. */
  lemma ResolveOfLoop(a: Abi, t: Type)
    requires forall n: nat, u :: !LeadsTo(a, t, n, u)
    ensures Resolve(a, t) == t
  {
    if Follow(a, t, |a.typedefs|).Some? { var n := FollowedLeads(a, t, |a.typedefs|); }
  }

  lemma {:induction false} PackAllRoundTrip(p: Prim, vs: seq<Value>, rest: Bytes)
    requires AllOk(p, vs)
    ensures PackAll(p, vs).Some?
    ensures UnpackAll(p, |vs|, PackAll(p, vs).value + rest) == Some((List(vs), rest))
  {
    hide PackPrim, UnpackPrim, PrimOk, UnpackAll;
    if vs == [] {
      assert [] + rest == rest;
      UnpackAllStep(p, 0, rest);
    } else {
      PackAllRoundTrip(p, vs[1..], rest);
      var b, bs := Pack(p, vs[0]).value, PackAll(p, vs[1..]).value;
      PrimRoundTrip(p, vs[0], bs + rest);
      assert (b + bs) + rest == b + (bs + rest);
      UnpackAllStep(p, |vs|, b + (bs + rest));
      assert [vs[0]] + vs[1..] == vs;
    }
  }

  function Prepend(v: Value, tail: Option<(Value, Bytes)>): (r: Option<(Value, Bytes)>)
    requires tail.Some? ==> tail.value.0.List?
  {
    if tail.None? then None else Some((List([v] + tail.value.0.items), tail.value.1))
  }

  lemma UnpackAllStep(p: Prim, n: nat, s: Bytes)
    ensures UnpackAll(p, n, s) ==
      if n == 0 then Some((List([]), s))
      else
        var r := UnpackPrim(p, s);
        if r.None? then None else Prepend(r.value.0, UnpackAll(p, n - 1, r.value.1))
  {
    hide UnpackPrim;
  }

  lemma DecodeAllStep(a: Abi, e: nat, t: Type, n: nat, s: Bytes)
    ensures DecodeAll(a, e, t, n, s) ==
      if n == 0 then Some((List([]), s))
      else
        var r := Decode(a, e, t, s);
        if r.None? then None else Prepend(r.value.0, DecodeAll(a, e, t, n - 1, r.value.1))
  {
    hide Decode;
  }

  lemma PrependRestores(v: Value, vs: seq<Value>, tail: Option<(Value, Bytes)>, rest: Bytes, readable: bool)
    requires tail.Some? ==> tail.value.0.List?
    requires Restores(tail, List(vs), rest, readable)
    ensures Restores(Prepend(v, tail), List([v] + vs), rest, readable)
  {
    if tail.Some? {
      var items := [v] + tail.value.0.items;
      assert items == [v] + vs ==> items[1..] == tail.value.0.items == ([v] + vs)[1..] == vs;
    }
  }

  lemma PrependDiffers(v: Value, w: Value, vs: seq<Value>, tail: Option<(Value, Bytes)>, rest: Bytes)
    requires (tail.Some? ==> tail.value.0.List?) && v != w
    ensures Restores(Prepend(w, tail), List([v] + vs), rest, false)
  {
    if tail.Some? {
      var items := [w] + tail.value.0.items;
      assert items[0] == w && ([v] + vs)[0] == v;
    }
  }

  lemma {:induction false} AllRoundTrip(a: Abi, d: nat, e: nat, t: Type, vs: seq<Value>, rest: Bytes)
    requires ConformsAll(a, d, t, vs)
    ensures EncodeAll(a, d, t, vs).Some?
    ensures Restores(DecodeAll(a, e, t, |vs|, EncodeAll(a, d, t, vs).value + rest), List(vs), rest,
                     ReadableAll(a, d, t, vs, rest != []) && e >= NeedAll(a, d, t, vs))
    decreases d, 3 + |vs|
  {
    hide Encode, Decode, Conforms, Readable, Need, DecodeAll, Prepend;
    if vs == [] {
      assert [] + rest == rest;
      DecodeAllStep(a, e, t, 0, rest);
    } else {
      var b, bs := Encode(a, d, t, vs[0], false), EncodeAll(a, d, t, vs[1..]);
      AllRoundTrip(a, d, e, t, vs[1..], rest);
      RoundTrip(a, d, e, t, vs[0], false, bs.value + rest);
      assert (b.value + bs.value) + rest == b.value + (bs.value + rest);
      AllFromFirst(a, e, t, vs, b.value + (bs.value + rest), bs.value + rest, rest,
                   Readable(a, d, t, vs[0], false, bs.value + rest != []) && e >= Need(a, d, t, vs[0], false),
                   ReadableAll(a, d, t, vs[1..], rest != []) && e >= NeedAll(a, d, t, vs[1..]));
    }
  }

  lemma AllFromFirst(a: Abi, e: nat, t: Type, vs: seq<Value>, s: Bytes, more: Bytes, rest: Bytes, first: bool, others: bool)
    requires vs != [] && Restores(Decode(a, e, t, s), vs[0], more, first)
    requires Restores(DecodeAll(a, e, t, |vs| - 1, more), List(vs[1..]), rest, others)
    ensures Restores(DecodeAll(a, e, t, |vs|, s), List(vs), rest, first && others)
  {
    hide Decode, DecodeAll, Prepend;
    assert [vs[0]] + vs[1..] == vs;
    DecodeAllStep(a, e, t, |vs|, s);
    var r := Decode(a, e, t, s);
    if r.Some? {
      var tail := DecodeAll(a, e, t, |vs| - 1, r.value.1);
      if r.value.0 == vs[0] {
        PrependRestores(vs[0], vs[1..], tail, rest, others);
      } else {
        PrependDiffers(vs[0], r.value.0, vs[1..], tail, rest);
      }
    }
  }

  lemma {:induction false} AbsentFields(a: Abi, d: nat, e: nat, fs: seq<Field>, ms: seq<Member>, ns: seq<Member>, closed: bool)
    requires Absent(fs, ms)
    ensures EncodeFields(a, d, fs, ms, true, closed) == Some([])
    ensures DecodeFields(a, e, fs, [], ns) == Some((ns, []))
    decreases |fs|
  {
    hide Encode, Decode;
    if fs == [] {
    } else {
      AbsentFields(a, d, e, fs[1..], ms, ns, true);
    }
  }

  lemma {:induction false} LookupPrefix(ms: seq<Member>, i: nat)
    requires i < |ms| && DistinctKeys(ms)
    ensures Lookup(ms[..i], ms[i].key) == None
  {
    if i == 0 {
    } else {
      LookupPrefix(ms[1..], i - 1);
      assert ms[..i][1..] == ms[1..][..i - 1];
    }
  }

  // A member left wrong or missing stays so through the fields that follow.
  lemma StaysSpoiled(a: Abi, d: nat, e: nat, fs: seq<Field>, ms: seq<Member>, i: nat, j: nat, ext: bool,
                     s: Bytes, ns: seq<Member>, p: nat)
    requires p < i <= j <= |ms| && DistinctKeys(ms) && ConformsFields(a, d, fs, ms, i, j, ext)
    requires Lookup(ns, ms[p].key) != Some(ms[p].value)
    ensures var r := DecodeFields(a, e, fs, s, ns); r.None? || Spoiled(r.value.0, ms, j)
  {
    hide DecodeFields, ConformsFields, Lookup, DistinctKeys;
    forall k | 0 <= k < |fs| ensures fs[k].name != ms[p].key {
      NamesApart(a, d, fs, ms, i, j, ext, p, k);
    }
    FieldsKeep(a, e, fs, s, ns, ms[p].key);
  }

  lemma {:induction false} FieldsRoundTrip(a: Abi, d: nat, e: nat, fs: seq<Field>, ms: seq<Member>, i: nat, j: nat,
                                           ext: bool, rest: Bytes)
    requires i <= j <= |ms| && DistinctKeys(ms) && ConformsFields(a, d, fs, ms, i, j, ext)
    requires ext ==> rest == []
    ensures EncodeFields(a, d, fs, ms, ext, false).Some?
    ensures RestoresMembers(DecodeFields(a, e, fs, EncodeFields(a, d, fs, ms, ext, false).value + rest, ms[..i]),
                            ms, j, rest,
                            ReadableFields(a, d, fs, ms, i, j, ext, rest != []) && e >= NeedFields(a, d, fs, ms, i, j, ext))
    decreases d, 3 + |fs|
  {
    hide Encode, Decode, Conforms, Readable, Need, Lookup, Put, Spoiled, DistinctKeys;
    if fs == [] {
      assert [] + rest == rest;
    } else if i == j {
      AbsentFields(a, d, e, fs, ms, ms[..i], false);
      assert [] + rest == rest == [];
    } else {
      var f, v := fs[0], ms[i].value;
      LookupAt(ms, i);
      FieldsRoundTrip(a, d, e, fs[1..], ms, i + 1, j, ext, rest);
      var b, bs := Encode(a, d, f.ty, v, ext && |fs| == 1), EncodeFields(a, d, fs[1..], ms, ext, false);
      RoundTrip(a, d, e, f.ty, v, ext && |fs| == 1, bs.value + rest);
      var s := b.value + (bs.value + rest);
      assert (b.value + bs.value) + rest == s;
      var r := Decode(a, e, f.ty, s);
      if s == [] {
        LookupPrefix(ms, i);
        StaysSpoiled(a, d, e, fs[1..], ms, i + 1, j, ext, s, ms[..i], i);
      } else if r.Some? && r.value.0 != v {
        var ns := Put(ms[..i], f.name, r.value.0);
        LookupPut(ms[..i], f.name, r.value.0, f.name);
        StaysSpoiled(a, d, e, fs[1..], ms, i + 1, j, ext, r.value.1, ns, i);
      } else if r.Some? {
        PutAppends(ms, i);
      }
    }
  }

  lemma {:induction false} StructRoundTrip(a: Abi, d: nat, e: nat, name: string, ms: seq<Member>, j: nat,
                                           ext: bool, rest: Bytes)
    requires j <= |ms| && DistinctKeys(ms) && ConformsStruct(a, d, name, ms, j, ext)
    requires ext ==> rest == []
    ensures name in a.structs && EncodeStruct(a, d, a.structs[name], Object(ms), ext).Some?
    ensures RestoresMembers(DecodeStruct(a, e, name, EncodeStruct(a, d, a.structs[name], Object(ms), ext).value + rest, []),
                            ms, j, rest,
                            ReadableStruct(a, d, name, ms, j, ext, rest != []) && e >= NeedStruct(a, d, name, ms, j, ext))
    decreases d, 0
  {
    hide EncodeFields, DecodeFields, ConformsFields, ReadableFields, NeedFields, Spoiled, DistinctKeys, Lookup, Resolve;
    var st := a.structs[name];
    var e' := if e == 0 then 0 else e - 1;
    if st.base.None? {
      FieldsRoundTrip(a, d - 1, e', st.fields, ms, 0, j, ext, rest);
      var bo := EncodeFields(a, d - 1, st.fields, ms, ext, false);
      assert [] + bo.value == bo.value;
      assert ms[..0] == [];
    } else {
      var b := Resolve(a, Named(st.base.value)).name;
      var k := Span(a, d - 1, b);
      ResolveTwice(a, Named(st.base.value));
      FieldsRoundTrip(a, d - 1, e', st.fields, ms, k, j, ext, rest);
      var bo := EncodeFields(a, d - 1, st.fields, ms, ext, false);
      StructRoundTrip(a, d - 1, e', b, ms, k, false, bo.value + rest);
      var bb := EncodeStruct(a, d - 1, a.structs[b], Object(ms), false);
      BaseEncodes(a, d - 1, b, ms);
      assert (bb.value + bo.value) + rest == bb.value + (bo.value + rest);
      var under := DecodeStruct(a, e', b, bb.value + (bo.value + rest), []);
      if under.Some? && Spoiled(under.value.0, ms, k) {
        SpoiledBase(a, d - 1, e', st.fields, ms, k, j, ext, under.value.1, under.value.0);
      }
    }
  }

  lemma BaseEncodes(a: Abi, d: nat, b: string, ms: seq<Member>)
    requires d > 0 && IsStruct(a, b) && Resolve(a, Named(b)) == Named(b)
    ensures Encode(a, d, Named(b), Object(ms), false) == EncodeStruct(a, d, a.structs[b], Object(ms), false)
  {
    hide EncodeStruct, Resolve;
  }

  lemma SpoiledBase(a: Abi, d: nat, e: nat, fs: seq<Field>, ms: seq<Member>, k: nat, j: nat, ext: bool,
                    s: Bytes, ns: seq<Member>)
    requires k <= j <= |ms| && DistinctKeys(ms) && ConformsFields(a, d, fs, ms, k, j, ext) && Spoiled(ns, ms, k)
    ensures var r := DecodeFields(a, e, fs, s, ns); r.None? || Spoiled(r.value.0, ms, j)
  {
    hide DecodeFields, ConformsFields, Lookup, DistinctKeys;
    var p :| 0 <= p < k && Lookup(ns, ms[p].key) != Some(ms[p].value);
    StaysSpoiled(a, d, e, fs, ms, k, j, ext, s, ns, p);
  }

  lemma ObjectRestored(r: Option<(seq<Member>, Bytes)>, ms: seq<Member>, rest: Bytes, readable: bool)
    requires DistinctKeys(ms) && RestoresMembers(r, ms, |ms|, rest, readable)
    ensures var o := if r.None? || r.value.0 == [] then None else Some((Object(r.value.0), r.value.1));
      Restores(o, Object(ms), rest, readable && ms != [])
  {
    hide Lookup;
    assert ms[..|ms|] == ms;
    if !readable && r.Some? {
      var p :| 0 <= p < |ms| && Lookup(r.value.0, ms[p].key) != Some(ms[p].value);
      LookupAt(ms, p);
    }
  }

  /** Decoding an encoding, followed by anything, gives the value and what follows exactly
      when the value is readable there and the depth allowed is the depth it needs;
      otherwise it fails or gives another value. An extension may be left out only at the
      end of the data. */
  lemma {:induction false} RoundTrip(a: Abi, d: nat, e: nat, t: Type, v: Value, ext: bool, rest: Bytes)
    requires Conforms(a, d, t, v, ext) && (ext ==> rest == [])
    ensures Encode(a, d, t, v, ext).Some?
    ensures Restores(Decode(a, e, t, Encode(a, d, t, v, ext).value + rest), v, rest,
                     Readable(a, d, t, v, ext, rest != []) && e >= Need(a, d, t, v, ext))
    decreases d, 2
  {
    hide Resolve, Encode, Decode, Conforms, Readable, Need, Restores;
    match Resolve(a, t) {
      case Fixed(n, u) => FixedRoundTrip(a, d, e, t, n, u, v, ext, rest);
      case Array(u) => ArrayRoundTrip(a, d, e, t, u, v, ext, rest);
      case Optional(u) => OptionalRoundTrip(a, d, e, t, u, v, ext, rest);
      case Named(n) => NamedRoundTrip(a, d, e, t, n, v, ext, rest);
    }
  }

  lemma {:induction false} FixedRoundTrip(a: Abi, d: nat, e: nat, t: Type, n: nat, u: Type, v: Value, ext: bool, rest: Bytes)
    requires Conforms(a, d, t, v, ext) && (ext ==> rest == [])
    requires Resolve(a, t) == Fixed(n, u)
    ensures Encode(a, d, t, v, ext).Some?
    ensures Restores(Decode(a, e, t, Encode(a, d, t, v, ext).value + rest), v, rest,
                     Readable(a, d, t, v, ext, rest != []) && e >= Need(a, d, t, v, ext))
    decreases d, 1
  {
    hide Resolve, EncodeAll, DecodeAll, ConformsAll, ReadableAll, NeedAll;
    AllRoundTrip(a, d - 1, if e == 0 then 0 else e - 1, u, v.items, rest);
  }

  lemma {:induction false} ArrayRoundTrip(a: Abi, d: nat, e: nat, t: Type, u: Type, v: Value, ext: bool, rest: Bytes)
    requires Conforms(a, d, t, v, ext) && (ext ==> rest == [])
    requires Resolve(a, t) == Array(u)
    ensures Encode(a, d, t, v, ext).Some?
    ensures Restores(Decode(a, e, t, Encode(a, d, t, v, ext).value + rest), v, rest,
                     Readable(a, d, t, v, ext, rest != []) && e >= Need(a, d, t, v, ext))
    decreases d, 1
  {
    hide Resolve, PackAll, UnpackAll, EncodeAll, DecodeAll, ConformsAll, ReadableAll, NeedAll, AllOk, VarBytes, ReadVarUint;
    var b := if IsBuiltIn(a, u) then PackAll(a.builtIns[u.name], v.items) else EncodeAll(a, d - 1, u, v.items);
    if IsBuiltIn(a, u) {
      PackAllRoundTrip(a.builtIns[u.name], v.items, rest);
    } else {
      AllRoundTrip(a, d - 1, if e == 0 then 0 else e - 1, u, v.items, rest);
    }
    VarUintRoundTrip(|v.items|, b.value + rest);
    assert (VarBytes(|v.items|) + b.value) + rest == VarBytes(|v.items|) + (b.value + rest);
  }

  lemma {:induction false} OptionalRoundTrip(a: Abi, d: nat, e: nat, t: Type, u: Type, v: Value, ext: bool, rest: Bytes)
    requires Conforms(a, d, t, v, ext) && (ext ==> rest == [])
    requires Resolve(a, t) == Optional(u)
    ensures Encode(a, d, t, v, ext).Some?
    ensures Restores(Decode(a, e, t, Encode(a, d, t, v, ext).value + rest), v, rest,
                     Readable(a, d, t, v, ext, rest != []) && e >= Need(a, d, t, v, ext))
    decreases d, 1
  {
    hide Encode, Decode, Conforms, Readable, Need, Resolve;
    if v.Null? || IsBuiltIn(a, u) {
      OptionalLeaf(a, d, e, t, u, v, ext, rest);
    } else {
      OptionalUnfolds(a, d, t, u, v, ext, rest != []);
      var b := Encode(a, d - 1, u, v, ext);
      RoundTrip(a, d - 1, if e == 0 then 0 else e - 1, u, v, ext, rest);
      assert ([1] + b.value) + rest == [1] + (b.value + rest);
      OptionalDecodes(a, e, t, u, b.value + rest);
    }
  }

  lemma OptionalLeaf(a: Abi, d: nat, e: nat, t: Type, u: Type, v: Value, ext: bool, rest: Bytes)
    requires Conforms(a, d, t, v, ext) && Resolve(a, t) == Optional(u) && (v.Null? || IsBuiltIn(a, u))
    ensures Encode(a, d, t, v, ext).Some?
    ensures Restores(Decode(a, e, t, Encode(a, d, t, v, ext).value + rest), v, rest,
                     Readable(a, d, t, v, ext, rest != []) && e >= Need(a, d, t, v, ext))
  {
    hide Resolve, PackPrim, UnpackPrim, PrimOk;
    if v.Null? {
      assert ([0] + rest)[1..] == rest;
    } else {
      var b := PackPrim(a.builtIns[u.name], v);
      PrimRoundTrip(a.builtIns[u.name], v, rest);
      assert (([1] + b) + rest)[1..] == b + rest;
    }
  }

  lemma OptionalUnfolds(a: Abi, d: nat, t: Type, u: Type, v: Value, ext: bool, more: bool)
    requires Conforms(a, d, t, v, ext) && Resolve(a, t) == Optional(u) && !v.Null? && !IsBuiltIn(a, u)
    ensures d > 0 && Conforms(a, d - 1, u, v, ext)
    ensures Encode(a, d, t, v, ext) == Join(Some([1]), Encode(a, d - 1, u, v, ext))
    ensures Readable(a, d, t, v, ext, more) == Readable(a, d - 1, u, v, ext, more)
    ensures Need(a, d, t, v, ext) == 1 + Need(a, d - 1, u, v, ext)
  {
    hide Resolve;
  }

  lemma OptionalDecodes(a: Abi, e: nat, t: Type, u: Type, s: Bytes)
    requires Resolve(a, t) == Optional(u) && !IsBuiltIn(a, u)
    ensures Decode(a, e, t, [1] + s) == if e == 0 then None else Decode(a, e - 1, u, s)
  {
    hide Resolve;
    assert ([1] + s)[1..] == s;
  }

  lemma {:induction false} NamedRoundTrip(a: Abi, d: nat, e: nat, t: Type, n: string, v: Value, ext: bool, rest: Bytes)
    requires Conforms(a, d, t, v, ext) && (ext ==> rest == [])
    requires Resolve(a, t) == Named(n)
    ensures Encode(a, d, t, v, ext).Some?
    ensures Restores(Decode(a, e, t, Encode(a, d, t, v, ext).value + rest), v, rest,
                     Readable(a, d, t, v, ext, rest != []) && e >= Need(a, d, t, v, ext))
    decreases d, 1
  {
    hide Encode, Decode, Conforms, Readable, Need, Resolve, DistinctKeys;
    hide EncodeStruct, DecodeStruct, ConformsStruct, ReadableStruct, NeedStruct;
    if n in a.builtIns || n in a.variants {
      NamedLeaf(a, d, e, t, n, v, ext, rest);
    } else {
      StructUnfolds(a, d, t, n, v, ext, rest != []);
      var ms, e' := v.members, if e == 0 then 0 else e - 1;
      StructRoundTrip(a, d, e', n, ms, |ms|, ext, rest);
      var s := EncodeStruct(a, d, a.structs[n], v, ext).value + rest;
      ObjectRestored(DecodeStruct(a, e', n, s, []), ms, rest,
                     ReadableStruct(a, d, n, ms, |ms|, ext, rest != []) && e' >= NeedStruct(a, d, n, ms, |ms|, ext));
      StructDecodes(a, e, t, n, s);
    }
  }

  lemma {:induction false} NamedLeaf(a: Abi, d: nat, e: nat, t: Type, n: string, v: Value, ext: bool, rest: Bytes)
    requires Conforms(a, d, t, v, ext) && (ext ==> rest == [])
    requires Resolve(a, t) == Named(n) && (n in a.builtIns || n in a.variants)
    ensures Encode(a, d, t, v, ext).Some?
    ensures Restores(Decode(a, e, t, Encode(a, d, t, v, ext).value + rest), v, rest,
                     Readable(a, d, t, v, ext, rest != []) && e >= Need(a, d, t, v, ext))
    decreases d, 0, 1
  {
    hide Resolve, PackPrim, UnpackPrim, PrimOk, EncodeChoice, DecodeChoice, ConformsChoice, ReadableChoice, NeedChoice;
    if n in a.builtIns {
      PrimRoundTrip(a.builtIns[n], v, rest);
    } else {
      ChoiceRoundTrip(a, d, if e == 0 then 0 else e - 1, a.variants[n], v, ext, rest);
    }
  }

  lemma StructUnfolds(a: Abi, d: nat, t: Type, n: string, v: Value, ext: bool, more: bool)
    requires Conforms(a, d, t, v, ext) && Resolve(a, t) == Named(n) && n !in a.builtIns && n !in a.variants
    ensures v.Object? && DistinctKeys(v.members) && ConformsStruct(a, d, n, v.members, |v.members|, ext)
    ensures d > 0 && n in a.structs && Encode(a, d, t, v, ext) == EncodeStruct(a, d, a.structs[n], v, ext)
    ensures Readable(a, d, t, v, ext, more) ==
      (v.members != [] && ReadableStruct(a, d, n, v.members, |v.members|, ext, more))
    ensures Need(a, d, t, v, ext) == 1 + NeedStruct(a, d, n, v.members, |v.members|, ext)
  {
    hide Resolve, EncodeStruct, ReadableStruct, NeedStruct;
  }

  lemma StructDecodes(a: Abi, e: nat, t: Type, n: string, s: Bytes)
    requires Resolve(a, t) == Named(n) && n !in a.builtIns && n !in a.variants
    ensures Decode(a, e, t, s) ==
      if e == 0 then None
      else
        var r := DecodeStruct(a, e - 1, n, s, []);
        if r.None? || r.value.0 == [] then None else Some((Object(r.value.0), r.value.1))
  {
    hide Resolve, DecodeStruct;
  }

  // e is the depth left for the value chosen.
  lemma {:induction false} ChoiceRoundTrip(a: Abi, d: nat, e: nat, cs: seq<Choice>, v: Value, ext: bool, rest: Bytes)
    requires d > 0 && ConformsChoice(a, d, cs, v, ext) && (ext ==> rest == [])
    ensures EncodeChoice(a, d, cs, v, ext).Some?
    ensures Restores(DecodeChoice(a, e + 1, cs, EncodeChoice(a, d, cs, v, ext).value + rest), v, rest,
                     ReadableChoice(a, d, cs, v, ext, rest != []) && e >= NeedChoice(a, d, cs, v, ext))
    decreases d, 0, 0
  {
    hide Encode, Decode, Conforms, Readable, Need, FindTag, VarBytes, ReadVarUint;
    var i := FindTag(cs, v.items[0].text).value;
    RoundTrip(a, d - 1, e, cs[i].ty, v.items[1], ext, rest);
    var b := Encode(a, d - 1, cs[i].ty, v.items[1], ext).value;
    VarUintRoundTrip(i, b + rest);
    assert (VarBytes(i) + b) + rest == VarBytes(i) + (b + rest);
    assert v.items == [Text(cs[i].tag), v.items[1]];
  }
}
