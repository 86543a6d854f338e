// Built-in values read and packed again: the bytes come back if and only if every number of
// variable length was minimal, that is, written as the encoder writes it.
module AbiMinimal {
  import opened Options
  import opened AbiCodec

  // ---- What encoding again gives ----

  // rest is the end of s, and b is no longer than what comes before it, and equal to that if
  // and only if canonical.
  ghost predicate Recoded(b: Option<Bytes>, s: Bytes, rest: Bytes, canonical: bool) {
    && |rest| <= |s| && s[|s| - |rest|..] == rest
    && (b.Some? ==> |b.value| <= |s| - |rest|)
    && (b == Some(s[..|s| - |rest|]) <==> canonical)
  }

  lemma RecodedJoin(x: Option<Bytes>, y: Option<Bytes>, s: Bytes, mid: Bytes, rest: Bytes, p: bool, q: bool)
    requires Recoded(x, s, mid, p) && Recoded(y, mid, rest, q)
    ensures Recoded(Join(x, y), s, rest, p && q)
  {
    var a, b, c := s[..|s| - |mid|], mid[..|mid| - |rest|], s[..|s| - |rest|];
    assert s == a + mid && mid == b + rest;
    assert s == a + (b + rest) == (a + b) + rest;
    assert c == a + b;
    if Join(x, y) == Some(c) {
      assert x.value == (x.value + y.value)[..|a|] == c[..|a|] == a;
      assert y.value == (x.value + y.value)[|a|..] == c[|a|..] == b;
    }
  }

  lemma RecodedNothing(s: Bytes)
    ensures Recoded(Some([]), s, s, true)
  {
  }

  lemma RecodedByte(s: Bytes, flag: Byte)
    requires s != []
    ensures Recoded(Some([flag]), s, s[1..], s[0] == flag)
  {
    assert s[..1] == [s[0]];
  }

  // ---- Numbers of variable length ----

  // The number at the front is written as the encoder writes it.
  predicate Minimal(s: Bytes, capped: bool) {
    var r := ReadVar32(s, capped);
    r.Some? && s[..|s| - |r.value.1|] == VarBytes(r.value.0)
  }

  lemma {:induction false} ReadVarSize(s: Bytes, k: nat, capped: bool)
    requires ReadVar(s, k, capped).Some?
    ensures var (n, rest) := ReadVar(s, k, capped).value;
      s[|s| - |rest|..] == rest && n < Pow128(|s| - |rest|)
    decreases |s|
  {
    var (n, rest) := ReadVar(s, k, capped).value;
    if s[0] < 128 || (capped && k >= 4) {
      assert Pow128(1) == 128;
    } else {
      ReadVarSize(s[1..], k + 1, capped);
      var m := |s| - |rest|;
      assert Pow128(m) == 128 * Pow128(m - 1);
    }
  }

  lemma {:induction false} VarBytesSize(n: nat, k: nat)
    requires k > 0 && n < Pow128(k)
    ensures |VarBytes(n)| <= k
    decreases k
  {
    if n < 128 {
    } else {
      assert Pow128(1) == 128;
      VarBytesSize(n / 128, k - 1);
    }
  }

  lemma VarRecoded(s: Bytes, capped: bool, m: nat)
    requires ReadVar32(s, capped).Some? && m <= ReadVar32(s, capped).value.0
    ensures var (n, rest) := ReadVar32(s, capped).value;
      Recoded(Some(VarBytes(m)), s, rest, m == n && Minimal(s, capped))
  {
    hide VarBytes, ReadVar, Pow128;
    ReadVarSize(s, 0, capped);
    var (n, rest) := ReadVar32(s, capped).value;
    var k := |s| - |rest|;
    VarBytesSize(m, k);
    if s[..k] == VarBytes(m) {
      assert s == VarBytes(m) + rest;
      VarUintRoundTrip(m, rest);
    }
  }

  // ---- Built-in types ----

  predicate CanonicalPrim(p: Prim, s: Bytes) {
    match p
    case Unsigned(k) => k > 0
    case Signed(k) => k > 0
    case VarUint => Minimal(s, true)
    case VarInt => Minimal(s, false)
    case Blob => Minimal(s, true)
    case Raw(k) => k > 0
  }

  lemma {:induction false} FromLittleEndianBack(b: Bytes)
    ensures LittleEndian(FromLittleEndian(b), |b|) == b
  {
    if b == [] {
    } else {
      FromLittleEndianBack(b[1..]);
      assert FromLittleEndian(b) % 256 == b[0] && FromLittleEndian(b) / 256 == FromLittleEndian(b[1..]);
    }
  }

  lemma ZigZagBack(z: nat)
    requires z < UINT32_LIMIT
    ensures ZigZag(UnZigZag(z)) == z && -UINT32_LIMIT <= 2 * UnZigZag(z) < UINT32_LIMIT
  {
  }

  lemma PrimRecoded(p: Prim, s: Bytes)
    requires UnpackPrim(p, s).Some?
    ensures var (v, rest) := UnpackPrim(p, s).value;
      Recoded(Pack(p, v), s, rest, CanonicalPrim(p, s))
  {
    hide LittleEndian, FromLittleEndian, VarBytes, ReadVar, Minimal, ZigZag, UnZigZag;
    match p {
      case Unsigned(k) => FromLittleEndianBack(s[..k]);
      case Signed(k) => FromLittleEndianBack(s[..k]);
      case VarUint => VarRecoded(s, true, ReadVar32(s, true).value.0);
      case VarInt =>
        var z := ReadVar32(s, false).value.0;
        ZigZagBack(z);
        VarRecoded(s, false, z);
      case Blob =>
        var (n, mid) := ReadVar32(s, true).value;
        VarRecoded(s, true, n);
        RecodedJoin(Some(VarBytes(n)), Some(mid[..n]), s, mid, mid[n..], Minimal(s, true), true);
      case Raw(k) =>
    }
  }

  // ---- Minimal numbers by their bytes ----

  lemma {:induction false} DigitsMinimal(s: Bytes, k: nat)
    requires ReadVar(s, k, true).Some? && k <= 4
    ensures var (n, rest) := ReadVar(s, k, true).value;
      var m := |s| - |rest|;
      && 0 < m <= 5 - k
      && (s[..m] == VarBytes(n) <==> s[m - 1] < 128 && (m == 1 || s[m - 1] != 0))
    decreases |s|
  {
    var (n, rest) := ReadVar(s, k, true).value;
    var m := |s| - |rest|;
    if s[0] < 128 || k >= 4 {
      assert s[..1] == [s[0]];
    } else {
      DigitsMinimal(s[1..], k + 1);
      DigitsStep(s, m, n, ReadVar(s[1..], k + 1, true).value.0);
    }
  }

  lemma DigitsStep(s: Bytes, m: nat, n: nat, high: nat)
    requires 1 < m <= |s| && s[0] >= 128 && n == s[0] % 128 + 128 * high
    requires s[1..][..m - 1] == VarBytes(high) <==> s[m - 1] < 128 && (m == 2 || s[m - 1] != 0)
    requires m == 2 ==> high == s[1] % 128
    ensures s[..m] == VarBytes(n) <==> s[m - 1] < 128 && s[m - 1] != 0
  {
    assert s[..m] == [s[0]] + s[1..][..m - 1];
    assert n % 128 == s[0] % 128 && n / 128 == high;
  }

  lemma Pow128Step(k: nat)
    ensures Pow128(k + 1) == 128 * Pow128(k)
  {
  }

  lemma Shifted(digit: nat, below: nat, p: nat, top: nat)
    ensures digit + 128 * (below + p * top) == (digit + 128 * below) + (128 * p) * top
  {
    var x := p * top;
    assert (128 * p) * top == 128 * x;
  }

  lemma {:induction false} TopDigit(s: Bytes, k: nat) returns (low: nat)
    requires ReadVar(s, k, true).Some? && k <= 4
    ensures var (n, rest) := ReadVar(s, k, true).value;
      var m := |s| - |rest|;
      0 < m <= 5 - k && low < Pow128(m - 1) && n == low + Pow128(m - 1) * (s[m - 1] % 128)
    decreases |s|
  {
    var (n, rest) := ReadVar(s, k, true).value;
    var m := |s| - |rest|;
    if s[0] < 128 || k >= 4 {
      low := 0;
    } else {
      hide Pow128;
      var below := TopDigit(s[1..], k + 1);
      low := s[0] % 128 + 128 * below;
      Pow128Step(m - 2);
      Shifted(s[0] % 128, below, Pow128(m - 2), s[m - 1] % 128);
    }
  }

  lemma FitsExactly(s: Bytes)
    requires ReadVar(s, 0, true).Some?
    ensures var (n, rest) := ReadVar(s, 0, true).value;
      var m := |s| - |rest|;
      0 < m <= 5 && (n < UINT32_LIMIT <==> m < 5 || s[4] % 128 < 16)
  {
    hide ReadVar;
    assert Pow128(0) == 1 && Pow128(1) == 128 && Pow128(2) == 0x4000;
    assert Pow128(3) == 0x20_0000 && Pow128(4) == 0x1000_0000;
    var low := TopDigit(s, 0);
    var (n, rest) := ReadVar(s, 0, true).value;
    var m := |s| - |rest|;
    SmallerPower(m - 1, s[m - 1] % 128);
  }

  lemma SmallerPower(j: nat, top: nat)
    requires j <= 4 && top < 128
    ensures j < 4 ==> Pow128(j) + Pow128(j) * top <= 0x1000_0000
    ensures j == 4 ==> Pow128(j) * top == 0x1000_0000 * top
  {
    assert Pow128(0) == 1 && Pow128(1) == 128 && Pow128(2) == 0x4000;
    assert Pow128(3) == 0x20_0000 && Pow128(4) == 0x1000_0000;
  }

  /** A number is minimal if and only if its last byte is not a zero added to others, and a
      fifth byte has no more than the four bits that fit. */
  lemma MinimalExactly(s: Bytes)
    requires ReadVarUint(s).Some?
    ensures var m := |s| - |ReadVarUint(s).value.1|;
      0 < m <= 5 && (Minimal(s, true) <==> (m == 1 || s[m - 1] != 0) && (m == 5 ==> s[4] < 16))
  {
    hide ReadVar, VarBytes, Pow128;
    FitsExactly(s);
    DigitsMinimal(s, 0);
    ReadVarSize(s, 0, true);
    var (n, rest) := ReadVar(s, 0, true).value;
    var m := |s| - |rest|;
    if n >= UINT32_LIMIT && s[..m] == VarBytes(n % UINT32_LIMIT) {
      assert s == s[..m] + s[m..];
      Raw32(n % UINT32_LIMIT, rest);
    }
    LastByte(s);
  }

  lemma Raw32(n: nat, rest: Bytes)
    requires n < UINT32_LIMIT
    ensures ReadVar(VarBytes(n) + rest, 0, true) == Some((n, rest))
  {
    hide VarBytes, ReadVar;
    assert Pow128(1) == 128 && Pow128(2) == 0x4000;
    assert Pow128(3) == 0x20_0000 && Pow128(4) == 0x1000_0000;
    VarRoundTrip(n, 0, rest, true);
  }

  // Only a fifth byte may carry the mark and end the number.
  lemma LastByte(s: Bytes)
    requires ReadVar(s, 0, true).Some?
    ensures var m := |s| - |ReadVar(s, 0, true).value.1|;
      0 < m <= 5 && (m < 5 ==> s[m - 1] < 128)
  {
    LastByteFrom(s, 0);
  }

  lemma {:induction false} LastByteFrom(s: Bytes, k: nat)
    requires ReadVar(s, k, true).Some? && k <= 4
    ensures var m := |s| - |ReadVar(s, k, true).value.1|;
      0 < m <= 5 - k && (m < 5 - k ==> s[m - 1] < 128)
    decreases |s|
  {
    if s[0] < 128 || k >= 4 {
    } else {
      LastByteFrom(s[1..], k + 1);
    }
  }

  /** Zero in two bytes is accepted and written in one. */
  lemma LongZeroIsAccepted()
    ensures ReadVarUint([128, 0]) == Some((0, [])) && VarBytes(0) == [0]
  {
    var zero: Bytes := [128, 0];
    assert zero[1..] == [0];
    assert ReadVar(zero[1..], 1, true) == Some((0, []));
  }
}
