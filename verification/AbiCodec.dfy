// The ABI binary codec: values to bytes and back, directed by an ABI's tables, as
// abi_serializer's _variant_to_binary and _binary_to_variant work.
module AbiCodec {
  import opened Options

  type Byte = b: int | 0 <= b < 256
  type Bytes = seq<Byte>

  const UINT32_LIMIT: int := 0x1_0000_0000

  // Built-in types by their binary form. Raw is a fixed number of bytes.
  datatype Prim = Unsigned(size: nat) | Signed(size: nat) | VarUint | VarInt | Blob | Raw(size: nat)

  datatype Type = Named(name: string) | Array(elem: Type) | Fixed(count: nat, elem: Type) | Optional(elem: Type)
  datatype Field = Field(name: string, ty: Type, extension: bool)
  datatype Struct = Struct(base: Option<string>, fields: seq<Field>)
  datatype Choice = Choice(tag: string, ty: Type)
  datatype Abi = Abi(builtIns: map<string, Prim>, typedefs: map<string, Type>,
                     structs: map<string, Struct>, variants: map<string, seq<Choice>>)

  datatype Member = Member(key: string, value: Value)
  datatype Value = Null | Num(n: int) | Text(text: string) | Data(bytes: Bytes)
                 | List(items: seq<Value>) | Object(members: seq<Member>)

  // ---- Built-in types ----

  function Pow256(size: nat): (p: nat)
    ensures p > 0
  {
    if size == 0 then 1 else 256 * Pow256(size - 1)
  }

  function LittleEndian(n: nat, size: nat): (b: Bytes)
    ensures |b| == size
  {
    if size == 0 then [] else [n % 256] + LittleEndian(n / 256, size - 1)
  }

  function FromLittleEndian(b: Bytes): (n: nat)
    ensures n < Pow256(|b|)
  {
    if b == [] then 0 else b[0] + 256 * FromLittleEndian(b[1..])
  }

  function VarBytes(n: nat): (b: Bytes)
    ensures b != []
  {
    if n < 128 then [n] else [128 + n % 128] + VarBytes(n / 128)
  }

  // Seven bits a byte, k bytes before this one. The unsigned form stops after five bytes;
  // the signed form reads on as long as bytes are marked, their bits shifted out.
  function ReadVar(s: Bytes, k: nat, capped: bool): (r: Option<(nat, Bytes)>)
    ensures r.Some? ==> |r.value.1| < |s|
    decreases |s|
  {
    if s == [] then None
    else if s[0] < 128 || (capped && k >= 4) then Some((s[0] % 128, s[1..]))
    else match ReadVar(s[1..], k + 1, capped)
      case None => None
      case Some((n, rest)) => Some((s[0] % 128 + 128 * n, rest))
  }

  function ReadVar32(s: Bytes, capped: bool): (r: Option<(nat, Bytes)>)
    ensures r.Some? ==> |r.value.1| < |s| && r.value.0 < UINT32_LIMIT
  {
    match ReadVar(s, 0, capped)
    case None => None
    case Some((n, rest)) => Some((n % UINT32_LIMIT, rest))
  }

  function ReadVarUint(s: Bytes): (r: Option<(nat, Bytes)>)
    ensures r.Some? ==> |r.value.1| < |s| && r.value.0 < UINT32_LIMIT
  {
    ReadVar32(s, true)
  }

  function ZigZag(n: int): (z: nat) { if n >= 0 then 2 * n else -2 * n - 1 }
  function UnZigZag(z: nat): (n: int) { if z % 2 == 0 then z / 2 else -((z + 1) / 2) }

  predicate PrimOk(p: Prim, v: Value) {
    match p
    case Unsigned(k) => k > 0 && v.Num? && 0 <= v.n < Pow256(k)
    case Signed(k) => k > 0 && v.Num? && 0 <= 2 * v.n + Pow256(k) < 2 * Pow256(k)
    case VarUint => v.Num? && 0 <= v.n < UINT32_LIMIT
    case VarInt => v.Num? && -UINT32_LIMIT <= 2 * v.n < UINT32_LIMIT
    case Blob => v.Data? && |v.bytes| < UINT32_LIMIT
    case Raw(k) => k > 0 && v.Data? && |v.bytes| == k
  }

  function PackPrim(p: Prim, v: Value): (b: Bytes)
    requires PrimOk(p, v)
    ensures b != []
  {
    match p
    case Unsigned(k) => LittleEndian(v.n, k)
    case Signed(k) => LittleEndian(if v.n < 0 then v.n + Pow256(k) else v.n, k)
    case VarUint => VarBytes(v.n)
    case VarInt => VarBytes(ZigZag(v.n))
    case Blob => VarBytes(|v.bytes|) + v.bytes
    case Raw(k) => v.bytes
  }

  function UnpackPrim(p: Prim, s: Bytes): (r: Option<(Value, Bytes)>)
    ensures r.Some? ==> |r.value.1| <= |s|
  {
    match p
    case Unsigned(k) => if |s| < k then None else Some((Num(FromLittleEndian(s[..k])), s[k..]))
    case Signed(k) =>
      if |s| < k then None
      else
        var u := FromLittleEndian(s[..k]);
        Some((Num(if 2 * u < Pow256(k) then u else u - Pow256(k)), s[k..]))
    case VarUint =>
      (match ReadVarUint(s)
       case None => None
       case Some((n, rest)) => Some((Num(n), rest)))
    case VarInt =>
      (match ReadVar32(s, false)
       case None => None
       case Some((n, rest)) => Some((Num(UnZigZag(n)), rest)))
    case Blob =>
      (match ReadVarUint(s)
       case None => None
       case Some((n, rest)) => if |rest| < n then None else Some((Data(rest[..n]), rest[n..])))
    case Raw(k) => if |s| < k then None else Some((Data(s[..k]), s[k..]))
  }

  lemma {:induction false} LittleEndianRoundTrip(n: nat, size: nat)
    requires n < Pow256(size)
    ensures FromLittleEndian(LittleEndian(n, size)) == n
  {
    if size == 0 {
    } else {
      LittleEndianRoundTrip(n / 256, size - 1);
    }
  }

  function Pow128(k: nat): (p: nat)
    ensures p > 0
  {
    if k == 0 then 1 else 128 * Pow128(k - 1)
  }

  lemma {:induction false} VarRoundTrip(n: nat, k: nat, rest: Bytes, capped: bool)
    requires k <= 4 && n < Pow128(5 - k)
    ensures ReadVar(VarBytes(n) + rest, k, capped) == Some((n, rest))
    decreases 5 - k
  {
    var s := VarBytes(n) + rest;
    if n < 128 {
      assert s[1..] == rest;
    } else {
      assert s[1..] == VarBytes(n / 128) + rest;
      VarRoundTrip(n / 128, k + 1, rest, capped);
    }
  }

  lemma VarUintRoundTrip(n: nat, rest: Bytes)
    requires n < UINT32_LIMIT
    ensures ReadVarUint(VarBytes(n) + rest) == Some((n, rest))
    ensures ReadVar32(VarBytes(n) + rest, false) == Some((n, rest))
  {
    hide VarBytes, ReadVar;
    assert Pow128(1) == 128 && Pow128(2) == 0x4000;
    assert Pow128(3) == 0x20_0000 && Pow128(4) == 0x1000_0000;
    VarRoundTrip(n, 0, rest, true);
    VarRoundTrip(n, 0, rest, false);
  }

  lemma PrimRoundTrip(p: Prim, v: Value, rest: Bytes)
    requires PrimOk(p, v)
    ensures UnpackPrim(p, PackPrim(p, v) + rest) == Some((v, rest))
  {
    hide LittleEndian, FromLittleEndian, VarBytes, ReadVarUint, ReadVar32, Pow256;
    var b := PackPrim(p, v);
    match p {
      case Unsigned(k) =>
        assert (b + rest)[..k] == b && (b + rest)[k..] == rest;
        LittleEndianRoundTrip(v.n, k);
      case Signed(k) =>
        assert (b + rest)[..k] == b && (b + rest)[k..] == rest;
        LittleEndianRoundTrip(if v.n < 0 then v.n + Pow256(k) else v.n, k);
      case VarUint => VarUintRoundTrip(v.n, rest);
      case VarInt => VarUintRoundTrip(ZigZag(v.n), rest);
      case Blob =>
        assert b + rest == VarBytes(|v.bytes|) + (v.bytes + rest);
        VarUintRoundTrip(|v.bytes|, v.bytes + rest);
        assert (v.bytes + rest)[..|v.bytes|] == v.bytes && (v.bytes + rest)[|v.bytes|..] == rest;
      case Raw(k) =>
        assert (b + rest)[..k] == b && (b + rest)[k..] == rest;
    }
  }

  // ---- Tables and objects ----

  // resolve_type: follow typedefs, at most as often as there are any.
  function Follow(a: Abi, t: Type, n: nat): (u: Option<Type>)
    decreases n
  {
    if !(t.Named? && t.name in a.typedefs) then Some(t)
    else if n == 0 then None
    else Follow(a, a.typedefs[t.name], n - 1)
  }

  function Resolve(a: Abi, t: Type): (u: Type) {
    match Follow(a, t, |a.typedefs|)
    case None => t
    case Some(u) => u
  }

  predicate IsBuiltIn(a: Abi, t: Type) {
    t.Named? && t.name in a.builtIns
  }

  predicate IsStruct(a: Abi, name: string) {
    name in a.structs && name !in a.builtIns && name !in a.variants
  }

  function Lookup(ms: seq<Member>, key: string): (v: Option<Value>) {
    if ms == [] then None
    else if ms[0].key == key then Some(ms[0].value)
    else Lookup(ms[1..], key)
  }

  // mutable_variant_object::set: replace the member of that name, or append one.
  function Put(ms: seq<Member>, key: string, v: Value): (ns: seq<Member>) {
    if ms == [] then [Member(key, v)]
    else if ms[0].key == key then [Member(key, v)] + ms[1..]
    else [ms[0]] + Put(ms[1..], key, v)
  }

  function FindTag(cs: seq<Choice>, tag: string): (i: Option<nat>)
    ensures i.Some? ==> i.value < |cs| && cs[i.value].tag == tag
  {
    if cs == [] then None
    else if cs[0].tag == tag then Some(0)
    else match FindTag(cs[1..], tag)
      case None => None
      case Some(i) => Some(i + 1)
  }

  function Join(x: Option<Bytes>, y: Option<Bytes>): (z: Option<Bytes>) {
    if x.Some? && y.Some? then Some(x.value + y.value) else None
  }

  // ---- variant_to_binary ----

  // d is the recursion depth still allowed; ext says whether binary extensions may be
  // left out here.
  function Encode(a: Abi, d: nat, t: Type, v: Value, ext: bool): (b: Option<Bytes>)
    decreases d, 0
  {
    if d == 0 then None
    else match Resolve(a, t)
      case Fixed(n, e) =>
        if v.List? && |v.items| == n then EncodeAll(a, d - 1, e, v.items) else None
      case Array(e) =>
        if !v.List? || |v.items| >= UINT32_LIMIT then None
        else Join(Some(VarBytes(|v.items|)),
                  if IsBuiltIn(a, e) then PackAll(a.builtIns[e.name], v.items)
                  else EncodeAll(a, d - 1, e, v.items))
      case Optional(e) =>
        if v.Null? then Some([0])
        else Join(Some([1]), if IsBuiltIn(a, e) then Pack(a.builtIns[e.name], v) else Encode(a, d - 1, e, v, ext))
      case Named(n) =>
        if n in a.builtIns then Pack(a.builtIns[n], v)
        else if n in a.variants then EncodeChoice(a, d, a.variants[n], v, ext)
        else if n in a.structs then EncodeStruct(a, d, a.structs[n], v, ext)
        else None
  }

  function Pack(p: Prim, v: Value): (b: Option<Bytes>) {
    if PrimOk(p, v) then Some(PackPrim(p, v)) else None
  }

  function PackAll(p: Prim, vs: seq<Value>): (b: Option<Bytes>) {
    if vs == [] then Some([]) else Join(Pack(p, vs[0]), PackAll(p, vs[1..]))
  }

  function EncodeAll(a: Abi, d: nat, e: Type, vs: seq<Value>): (b: Option<Bytes>)
    decreases d, 1 + |vs|
  {
    if vs == [] then Some([]) else Join(Encode(a, d, e, vs[0], false), EncodeAll(a, d, e, vs[1..]))
  }

  function EncodeChoice(a: Abi, d: nat, cs: seq<Choice>, v: Value, ext: bool): (b: Option<Bytes>)
    requires d > 0
    decreases d - 1, 1
  {
    if !(v.List? && |v.items| == 2 && v.items[0].Text?) then None
    else match FindTag(cs, v.items[0].text)
      case None => None
      case Some(i) =>
        if i >= UINT32_LIMIT then None
        else Join(Some(VarBytes(i)), Encode(a, d - 1, cs[i].ty, v.items[1], ext))
  }

  function EncodeStruct(a: Abi, d: nat, st: Struct, v: Value, ext: bool): (b: Option<Bytes>)
    requires d > 0
    decreases d - 1, 2 + |st.fields|
  {
    match v
    case Object(ms) =>
      Join(if st.base.Some? then Encode(a, d - 1, Resolve(a, Named(st.base.value)), v, false) else Some([]),
           EncodeFields(a, d - 1, st.fields, ms, ext, false))
    case List(items) =>
      if st.base.Some? then None else EncodeRow(a, d - 1, st.fields, items, ext)
    case _ => None
  }

  // closed: an extension has been left out, so no further field may be written.
  function EncodeFields(a: Abi, d: nat, fs: seq<Field>, ms: seq<Member>, ext: bool, closed: bool): (b: Option<Bytes>)
    decreases d, 1 + |fs|
  {
    if fs == [] then Some([])
    else
      var f, given := fs[0], Lookup(ms, fs[0].name);
      if given.Some? || (f.ty.Optional? && !f.extension) then
        if closed then None
        else Join(Encode(a, d, f.ty, if given.Some? then given.value else Null, ext && |fs| == 1),
                  EncodeFields(a, d, fs[1..], ms, ext, closed))
      else if f.extension && ext then EncodeFields(a, d, fs[1..], ms, ext, true)
      else None
  }

  // A struct given as an array of its field values.
  function EncodeRow(a: Abi, d: nat, fs: seq<Field>, vs: seq<Value>, ext: bool): (b: Option<Bytes>)
    decreases d, 1 + |fs|
  {
    if fs == [] then Some([])
    else if vs != [] then
      Join(Encode(a, d, fs[0].ty, vs[0], ext && |fs| == 1), EncodeRow(a, d, fs[1..], vs[1..], ext))
    else if fs[0].extension && ext then Some([])
    else None
  }

  // ---- binary_to_variant ----

  function Decode(a: Abi, d: nat, t: Type, s: Bytes): (r: Option<(Value, Bytes)>)
    decreases d, 0
  {
    if d == 0 then None
    else match Resolve(a, t)
      case Fixed(n, e) => DecodeAll(a, d - 1, e, n, s)
      case Array(e) =>
        (match ReadVarUint(s)
         case None => None
         case Some((n, rest)) =>
           if IsBuiltIn(a, e) then UnpackAll(a.builtIns[e.name], n, rest) else DecodeAll(a, d - 1, e, n, rest))
      case Optional(e) =>
        if s == [] then None
        else if s[0] == 0 then Some((Null, s[1..]))
        else if !IsBuiltIn(a, e) then Decode(a, d - 1, e, s[1..])
        else if s[0] == 1 then UnpackPrim(a.builtIns[e.name], s[1..])
        else None
      case Named(n) =>
        if n in a.builtIns then UnpackPrim(a.builtIns[n], s)
        else if n in a.variants then DecodeChoice(a, d, a.variants[n], s)
        else match DecodeStruct(a, d - 1, n, s, [])
          case None => None
          case Some((ms, rest)) => if ms == [] then None else Some((Object(ms), rest))
  }

  function UnpackAll(p: Prim, n: nat, s: Bytes): (r: Option<(Value, Bytes)>)
    ensures r.Some? ==> r.value.0.List? && |r.value.0.items| == n
  {
    if n == 0 then Some((List([]), s))
    else match UnpackPrim(p, s)
      case None => None
      case Some((v, rest)) =>
        match UnpackAll(p, n - 1, rest)
        case None => None
        case Some((vs, last)) => Some((List([v] + vs.items), last))
  }

  function DecodeAll(a: Abi, d: nat, e: Type, n: nat, s: Bytes): (r: Option<(Value, Bytes)>)
    ensures r.Some? ==> r.value.0.List? && |r.value.0.items| == n
    decreases d, 1 + n
  {
    if n == 0 then Some((List([]), s))
    else match Decode(a, d, e, s)
      case None => None
      case Some((v, rest)) =>
        match DecodeAll(a, d, e, n - 1, rest)
        case None => None
        case Some((vs, last)) => Some((List([v] + vs.items), last))
  }

  function DecodeChoice(a: Abi, d: nat, cs: seq<Choice>, s: Bytes): (r: Option<(Value, Bytes)>)
    requires d > 0
    decreases d - 1, 1
  {
    match ReadVarUint(s)
    case None => None
    case Some((i, rest)) =>
      if i >= |cs| then None
      else match Decode(a, d - 1, cs[i].ty, rest)
        case None => None
        case Some((v, last)) => Some((List([Text(cs[i].tag), v]), last))
  }

  // The overload that fills an object; it counts as one more level of recursion.
  function DecodeStruct(a: Abi, d: nat, name: string, s: Bytes, ms: seq<Member>): (r: Option<(seq<Member>, Bytes)>)
    decreases d, 1
  {
    if d == 0 || name !in a.structs then None
    else
      var st := a.structs[name];
      var under: Option<(seq<Member>, Bytes)> :=
        if st.base.None? then Some((ms, s))
        else match Resolve(a, Named(st.base.value))
          case Named(b) => DecodeStruct(a, d - 1, b, s, ms)
          case _ => None;
      match under
      case None => None
      case Some((ns, rest)) => DecodeFields(a, d - 1, st.fields, rest, ns)
  }

  function DecodeFields(a: Abi, d: nat, fs: seq<Field>, s: Bytes, ms: seq<Member>): (r: Option<(seq<Member>, Bytes)>)
    decreases d, 1 + |fs|
  {
    if fs == [] then Some((ms, s))
    else if s == [] then
      if fs[0].extension then DecodeFields(a, d, fs[1..], s, ms) else None
    else match Decode(a, d, fs[0].ty, s)
      case None => None
      case Some((v, rest)) => DecodeFields(a, d, fs[1..], rest, Put(ms, fs[0].name, v))
  }
}
