// The bytes themselves: where each digit of a number stands, how every built-in type is laid
// out, and byte vectors that fix the format.
module AbiFormat {
  import opened Options
  import opened Arithmetic
  import opened AbiCodec

  /** Byte i of a fixed-width number is its digit i in base 256, lowest first. */
  lemma {:induction false} LittleEndianByte(n: nat, size: nat, i: nat)
    requires i < size
    ensures LittleEndian(n, size)[i] == n / Pow256(i) % 256
  {
    if i == 0 {
    } else {
      LittleEndianByte(n / 256, size - 1, i - 1);
      DivideTwice(n, 256, Pow256(i - 1));
      assert Pow256(i - 1) * 256 == Pow256(i);
    }
  }

  /** Byte i of a variable-length number is its digit i in base 128, lowest first, marked
      unless it is the last. */
  lemma {:induction false} VarByte(n: nat, i: nat)
    requires i < |VarBytes(n)|
    ensures VarBytes(n)[i] == n / Pow128(i) % 128 + if i + 1 < |VarBytes(n)| then 128 else 0
    decreases n
  {
    if i == 0 {
    } else {
      VarByte(n / 128, i - 1);
      DivideTwice(n, 128, Pow128(i - 1));
      assert Pow128(i - 1) * 128 == Pow128(i);
    }
  }

  // ---- Built-in types ----

  // The k lowest digits of n in base 256, lowest first.
  ghost predicate FixedDigits(b: Bytes, n: nat, k: nat) {
    |b| == k && forall i :: 0 <= i < k ==> b[i] == n / Pow256(i) % 256
  }

  // The digits of n in base 128, lowest first and all but the last marked, and no more of
  // them than n has.
  ghost predicate VarDigits(b: Bytes, n: nat) {
    && b != [] && n < Pow128(|b|) && (|b| > 1 ==> n >= Pow128(|b| - 1))
    && forall i :: 0 <= i < |b| ==> b[i] == n / Pow128(i) % 128 + if i + 1 < |b| then 128 else 0
  }

  lemma {:induction false} VarSize(n: nat)
    ensures n < Pow128(|VarBytes(n)|) && (|VarBytes(n)| > 1 ==> n >= Pow128(|VarBytes(n)| - 1))
    decreases n
  {
    if n < 128 {
      assert Pow128(1) == 128 * Pow128(0);
    } else {
      VarSize(n / 128);
      var k := |VarBytes(n / 128)|;
      assert Pow128(k + 1) == 128 * Pow128(k) && Pow128(k) == 128 * Pow128(k - 1);
      assert k == 1 ==> Pow128(k - 1) == 1;
    }
  }

  lemma VarLayout(n: nat)
    ensures VarDigits(VarBytes(n), n)
  {
    hide VarBytes, Pow128;
    VarSize(n);
    var b := VarBytes(n);
    forall i | 0 <= i < |b| ensures b[i] == n / Pow128(i) % 128 + if i + 1 < |b| then 128 else 0 {
      VarByte(n, i);
    }
  }

  lemma FixedLayout(n: nat, k: nat)
    ensures FixedDigits(LittleEndian(n, k), n, k)
  {
    hide LittleEndian, Pow256;
    forall i | 0 <= i < k ensures LittleEndian(n, k)[i] == n / Pow256(i) % 256 {
      LittleEndianByte(n, k, i);
    }
  }

  // A number modulo 256^k, for the range of k bytes with a sign.
  lemma Wrapped(n: int, p: nat)
    requires p > 0 && 0 <= n + p && n < p
    ensures n % p == if n < 0 then n + p else n
  {
  }

  /** Every built-in type byte by byte: fixed-width numbers by their lowest digits in base 256,
      negative ones modulo 256^k, variable ones by their digits in base 128 with the sign in
      the lowest bit, byte strings after their length. */
  lemma PrimLayout(p: Prim, v: Value)
    requires PrimOk(p, v)
    ensures var b := PackPrim(p, v);
      match p
      case Unsigned(k) => FixedDigits(b, v.n, k)
      case Signed(k) => FixedDigits(b, v.n % Pow256(k), k)
      case VarUint => VarDigits(b, v.n)
      case VarInt => VarDigits(b, if v.n >= 0 then 2 * v.n else -2 * v.n - 1)
      case Blob =>
        var k := |b| - |v.bytes|;
        k >= 0 && VarDigits(b[..k], |v.bytes|) && b[k..] == v.bytes
      case Raw(k) => |v.bytes| == k && b == v.bytes
  {
    hide LittleEndian, VarBytes, Pow256, Pow128, FixedDigits, VarDigits;
    match p {
      case Unsigned(k) => FixedLayout(v.n, k);
      case Signed(k) =>
        Wrapped(v.n, Pow256(k));
        FixedLayout(v.n % Pow256(k), k);
      case VarUint => VarLayout(v.n);
      case VarInt => VarLayout(ZigZag(v.n));
      case Blob =>
        VarLayout(|v.bytes|);
        var b := PackPrim(p, v);
        assert b[..|b| - |v.bytes|] == VarBytes(|v.bytes|);
      case Raw(k) =>
    }
  }

  /** How much is read of any bytes: up to the first unmarked byte, or the fifth where that is
      the limit. */
  lemma {:induction false} ReadVarShape(s: Bytes, k: nat, capped: bool, i: nat)
    requires ReadVar(s, k, capped).Some? && (capped ==> k <= 4)
    ensures var m := |s| - |ReadVar(s, k, capped).value.1|;
      && 0 < m && s[m..] == ReadVar(s, k, capped).value.1 && (capped ==> m <= 5 - k)
      && (s[m - 1] < 128 || (capped && m == 5 - k))
      && (i + 1 < m ==> s[i] >= 128)
    decreases |s|
  {
    if s[0] < 128 || (capped && k >= 4) {
    } else {
      ReadVarShape(s[1..], k + 1, capped, if i == 0 then 0 else i - 1);
    }
  }

  lemma DigitMoves(n: nat, digit: nat, high: nat, i: nat)
    requires n == digit + 128 * high && digit < 128
    ensures n % 128 == digit && (i > 0 ==> n / Pow128(i) == high / Pow128(i - 1))
  {
    if i > 0 {
      DivideTwice(n, 128, Pow128(i - 1));
      assert n / 128 == high && Pow128(i - 1) * 128 == Pow128(i);
    }
  }

  /** What is read: the number whose digits in base 128 are the bytes without their marks. */
  lemma {:induction false} ReadVarDigits(s: Bytes, k: nat, capped: bool, i: nat)
    requires ReadVar(s, k, capped).Some? && i < |s| - |ReadVar(s, k, capped).value.1|
    ensures ReadVar(s, k, capped).value.0 / Pow128(i) % 128 == s[i] % 128
    decreases |s|
  {
    var n := ReadVar(s, k, capped).value.0;
    if s[0] < 128 || (capped && k >= 4) {
      assert Pow128(0) == 1;
    } else {
      var high := ReadVar(s[1..], k + 1, capped).value.0;
      DigitMoves(n, s[0] % 128, high, i);
      if i == 0 {
        assert Pow128(0) == 1;
      } else {
        hide Pow128;
        ReadVarDigits(s[1..], k + 1, capped, i - 1);
      }
    }
  }

  /** The vectors of the tests for numbers of two bytes, and both bytes of a larger one. */
  lemma TwoByteVectors()
    ensures Pack(Unsigned(2), Num(6)) == Some([6, 0]) && Pack(Signed(2), Num(3)) == Some([3, 0])
    ensures Pack(Unsigned(2), Num(258)) == Some([2, 1]) && Pack(Signed(2), Num(-2)) == Some([254, 255])
  {
    assert Pow256(1) == 256 && Pow256(2) == 65536;
    TwoBytes(6);
    TwoBytes(3);
    TwoBytes(258);
    TwoBytes(65534);
  }

  lemma TwoBytes(n: nat)
    requires n < 65536
    ensures LittleEndian(n, 2) == [n % 256, n / 256]
  {
    assert LittleEndian(n / 256, 1) == [n / 256];
  }

  // ---- A byte vector ----

  // The tables of the test: a variant over two names of one struct.
  function TestAbi(): (a: Abi) {
    Abi(map["int8" := Signed(1)], map["foo" := Named("s"), "bar" := Named("s")],
        map["s" := Struct(None, [Field("i0", Named("int8"), false), Field("i1", Named("int8"), false)])],
        map["v2" := [Choice("foo", Named("foo")), Choice("bar", Named("bar"))]])
  }

  lemma EncodeInt8(d: nat, n: nat, ext: bool)
    requires d > 0 && n < 128
    ensures Encode(TestAbi(), d, Named("int8"), Num(n), ext) == Some([n])
  {
    assert Pow256(1) == 256 * Pow256(0);
    assert LittleEndian(n / 256, 0) == [] && LittleEndian(n, 1) == [n];
    assert Pack(Signed(1), Num(n)) == Some([n]);
  }

  lemma EncodeBar(x: nat, y: nat)
    requires x < 128 && y < 128
    ensures Encode(TestAbi(), 2, Named("bar"), Object([Member("i0", Num(x)), Member("i1", Num(y))]), true) == Some([x, y])
  {
    hide Encode;
    var a, ms := TestAbi(), [Member("i0", Num(x)), Member("i1", Num(y))];
    var fs := a.structs["s"].fields;
    EncodeInt8(1, x, false);
    EncodeInt8(1, y, true);
    assert ms[1..][0].key == "i1" && Lookup(ms, "i0") == Some(Num(x)) && Lookup(ms, "i1") == Some(Num(y));
    assert fs[1..][1..] == [];
    var none: Bytes := [];
    assert EncodeFields(a, 1, fs[1..][1..], ms, true, false) == Some(none);
    assert EncodeFields(a, 1, fs[1..], ms, true, false) == Some([y] + none);
    assert EncodeFields(a, 1, fs, ms, true, false) == Some([x] + ([y] + none));
    assert none + ([x] + ([y] + none)) == [x, y];
    StructEncodes(ms);
  }

  lemma StructEncodes(ms: seq<Member>)
    ensures Encode(TestAbi(), 2, Named("bar"), Object(ms), true) ==
      Join(Some([]), EncodeFields(TestAbi(), 1, TestAbi().structs["s"].fields, ms, true, false))
  {
    hide EncodeFields;
    var a := TestAbi();
    assert |a.typedefs| == 2 && Follow(a, Named("s"), 1) == Some(Named("s"));
    assert Follow(a, Named("bar"), 2) == Some(Named("s"));
  }

  /** The bytes the tests fix for the second choice of a variant: its place, then its fields in
      the order declared. */
  lemma TestVector()
    ensures Encode(TestAbi(), 3, Named("v2"), List([Text("bar"), Object([Member("i0", Num(5)), Member("i1", Num(6))])]), true)
         == Some([1, 5, 6])
  {
    EncodeBar(5, 6);
    var cs := TestAbi().variants["v2"];
    assert cs[1..][0].tag == "bar" && cs[0].tag == "foo";
    assert FindTag(cs[1..], "bar") == Some(0);
    assert VarBytes(1) == [1] && [1] + [5, 6] == [1, 5, 6];
    hide Encode, EncodeStruct, EncodeFields;
    ChoiceEncodes(List([Text("bar"), Object([Member("i0", Num(5)), Member("i1", Num(6))])]));
  }

  lemma ChoiceEncodes(v: Value)
    ensures Encode(TestAbi(), 3, Named("v2"), v, true) == EncodeChoice(TestAbi(), 3, TestAbi().variants["v2"], v, true)
  {
    hide EncodeChoice;
  }

  // ---- The order of parts ----

  // A struct over another, each with one field, and the compound types over them.
  function LayerAbi(): (a: Abi) {
    Abi(map["uint8" := Unsigned(1)], map[],
        map["under" := Struct(None, [Field("x", Named("uint8"), false)]),
            "over" := Struct(Some("under"), [Field("y", Named("uint8"), false)])], map[])
  }

  lemma OneByte(d: nat, n: Byte, ext: bool)
    requires d > 0
    ensures Encode(LayerAbi(), d, Named("uint8"), Num(n), ext) == Some([n])
  {
    assert Pow256(1) == 256 * Pow256(0);
    assert LittleEndian(n / 256, 0) == [] && LittleEndian(n, 1) == [n];
    assert Pack(Unsigned(1), Num(n)) == Some([n]);
  }

  lemma OneField(d: nat, name: string, fs: seq<Field>, ms: seq<Member>, n: Byte)
    requires d > 0 && fs == [Field(name, Named("uint8"), false)] && Lookup(ms, name) == Some(Num(n))
    ensures EncodeFields(LayerAbi(), d, fs, ms, false, false) == Some([n])
  {
    hide Encode;
    OneByte(d, n, false);
    assert fs[1..] == [];
    var b: Bytes := [n];
    assert b + [] == b;
  }

  lemma Layer(d: nat, name: string, ms: seq<Member>)
    requires d > 0 && (name == "under" || name == "over")
    ensures var a := LayerAbi();
      Encode(a, d, Named(name), Object(ms), false) ==
      Join(if name == "over" then Encode(a, d - 1, Named("under"), Object(ms), false) else Some([]),
           EncodeFields(a, d - 1, a.structs[name].fields, ms, false, false))
  {
    hide EncodeFields;
  }

  /** The fields of the base come first, whatever the order in the object. */
  lemma BaseComesFirst(x: Byte, y: Byte, swapped: bool)
    ensures var p, q := Member("x", Num(x)), Member("y", Num(y));
      Encode(LayerAbi(), 4, Named("over"), Object(if swapped then [q, p] else [p, q]), false) == Some([x, y])
  {
    hide Encode, EncodeFields;
    var p, q := Member("x", Num(x)), Member("y", Num(y));
    var ms := if swapped then [q, p] else [p, q];
    assert ms[1..][0] == if swapped then p else q;
    assert Lookup(ms, "x") == Some(Num(x)) && Lookup(ms, "y") == Some(Num(y));
    Layer(4, "over", ms);
    Layer(3, "under", ms);
    OneField(3, "y", LayerAbi().structs["over"].fields, ms, y);
    OneField(2, "x", LayerAbi().structs["under"].fields, ms, x);
    var none: Bytes, a: Bytes, b: Bytes := [], [x], [y];
    assert none + a == a && a + b == [x, y];
  }

  /** Arrays start with their length unless it is fixed, optionals with their flag, and the
      items follow in order. */
  lemma CompoundVectors(x: Byte, y: Byte)
    ensures var a, t := LayerAbi(), Named("uint8");
      && Encode(a, 3, Array(t), List([Num(x), Num(y)]), false) == Some([2, x, y])
      && Encode(a, 3, Fixed(2, t), List([Num(x), Num(y)]), false) == Some([x, y])
      && Encode(a, 3, Optional(t), Num(x), false) == Some([1, x])
      && Encode(a, 3, Optional(t), Null, false) == Some([0])
  {
    var a, t, vs := LayerAbi(), Named("uint8"), [Num(x), Num(y)];
    OneByte(2, x, false);
    OneByte(2, y, false);
    OneByte(1, x, false);
    assert Pack(Unsigned(1), Num(x)) == Some([x]) && Pack(Unsigned(1), Num(y)) == Some([y]) by {
      OneByte(1, y, false);
    }
    var none: Bytes, one: Bytes, p: Bytes, q: Bytes := [], [1], [x], [y];
    assert vs[1..] == [Num(y)] && vs[1..][1..] == [];
    assert PackAll(Unsigned(1), vs[1..]) == Some(q + none);
    assert p + (q + none) == [x, y] && [2] + [x, y] == [2, x, y] && one + p == [1, x];
    assert EncodeAll(a, 2, t, vs[1..]) == Some(q + none);
    assert Resolve(a, Array(t)) == Array(t) && Resolve(a, Fixed(2, t)) == Fixed(2, t) && Resolve(a, Optional(t)) == Optional(t);
  }
}
