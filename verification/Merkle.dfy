// Merkle roots: computed from all digests at once, and kept up to date digest by digest.
module Merkle {
  import opened Arithmetic

  // The hash is left uninterpreted: two roots are equal here only if they hash the same
  // tree, so an equality holds for any hash function.
  datatype Digest = Empty | Leaf(id: nat) | Combine(left: Digest, right: Digest)

  function Pow2(k: nat): (p: nat)
    ensures p > 0
  {
    if k == 0 then 1 else 2 * Pow2(k - 1)
  }

  // std::bit_floor of a positive number, by its exponent.
  function Log2(n: nat): (k: nat)
    requires n > 0
    ensures Pow2(k) <= n < 2 * Pow2(k)
  {
    if n == 1 then 0 else 1 + Log2(n / 2)
  }

  // ---- calculate_merkle ----

  // Digests numbering a power of two, combined in halves.
  function Perfect(s: seq<Digest>, k: nat): (d: Digest)
    requires |s| == Pow2(k)
  {
    if k == 0 then s[0]
    else Combine(Perfect(s[..Pow2(k - 1)], k - 1), Perfect(s[Pow2(k - 1)..], k - 1))
  }

  function Slice(s: seq<Digest>, k: nat, parts: nat, i: nat): (t: seq<Digest>)
    requires parts <= k && |s| == Pow2(k) && i < Pow2(parts)
    ensures |t| == Pow2(k - parts)
  {
    SliceFits(k, parts, i);
    s[Pow2(k - parts) * i..Pow2(k - parts) * (i + 1)]
  }

  // Large inputs are cut into two or four slices that are combined by other threads.
  function Threaded(s: seq<Digest>, k: nat): (d: Digest)
    requires |s| == Pow2(k)
  {
    var parts := if |s| >= 2048 then 2 else if |s| >= 256 then 1 else 0;
    if parts == 0 || parts > k then Perfect(s, k)
    else Perfect(SliceRoots(s, k, parts), parts)
  }

  function SliceRoots(s: seq<Digest>, k: nat, parts: nat): (t: seq<Digest>)
    requires parts <= k && |s| == Pow2(k)
    ensures |t| == Pow2(parts)
    ensures forall i :: 0 <= i < |t| ==> t[i] == Perfect(Slice(s, k, parts, i), k - parts)
  {
    seq(Pow2(parts), i requires 0 <= i < Pow2(parts) => Perfect(Slice(s, k, parts, i), k - parts))
  }

  function CalculateMerkle(s: seq<Digest>): (d: Digest)
    decreases |s|
  {
    if s == [] then Empty
    else if |s| == 1 then s[0]
    else
      var k := Log2(|s|);
      if |s| == Pow2(k) then Threaded(s, k)
      else Combine(Threaded(s[..Pow2(k)], k), CalculateMerkle(s[Pow2(k)..]))
  }

  lemma SliceFits(k: nat, parts: nat, i: nat)
    requires parts <= k && i < Pow2(parts)
    ensures Pow2(k - parts) * (i + 1) == Pow2(k - parts) * i + Pow2(k - parts) <= Pow2(k)
  {
    Pow2Product(k - parts, parts);
    Scaled(Pow2(k - parts), i + 1, Pow2(parts));
  }

  lemma {:induction false} Pow2Product(a: nat, b: nat)
    ensures Pow2(a) * Pow2(b) == Pow2(a + b)
  {
    if b == 0 {
    } else {
      Pow2Product(a, b - 1);
      assert Pow2(a) * (2 * Pow2(b - 1)) == 2 * (Pow2(a) * Pow2(b - 1));
    }
  }

  lemma SliceOfHalf(s: seq<Digest>, k: nat, parts: nat, i: nat)
    requires 0 < parts <= k && |s| == Pow2(k) && i < Pow2(parts - 1)
    ensures Slice(s, k, parts, i) == Slice(s[..Pow2(k - 1)], k - 1, parts - 1, i)
    ensures Slice(s, k, parts, i + Pow2(parts - 1)) == Slice(s[Pow2(k - 1)..], k - 1, parts - 1, i)
  {
    hide Pow2;
    Pow2Doubles(k);
    Pow2Doubles(parts);
    var c, h := Pow2(k - parts), Pow2(k - 1);
    SliceFits(k - 1, parts - 1, i);
    Pow2Product(k - parts, parts - 1);
    assert c * (i + Pow2(parts - 1)) == c * i + h;
    assert c * (i + Pow2(parts - 1) + 1) == c * (i + 1) + h;
    SliceFits(k, parts, i + Pow2(parts - 1));
  }

  lemma Pow2Doubles(k: nat)
    requires k > 0
    ensures Pow2(k) == 2 * Pow2(k - 1)
  {
  }

  lemma {:induction false} SlicesCombine(s: seq<Digest>, k: nat, parts: nat)
    requires parts <= k && |s| == Pow2(k)
    ensures Perfect(SliceRoots(s, k, parts), parts) == Perfect(s, k)
    decreases parts
  {
    hide Slice;
    if parts == 0 {
      assert Pow2(k) * 0 == 0 && Pow2(k) * 1 == Pow2(k);
      WholeSlice(s, k);
    } else {
      var h, m, t := Pow2(k - 1), Pow2(parts - 1), SliceRoots(s, k, parts);
      forall i | 0 <= i < m
        ensures t[..m][i] == SliceRoots(s[..h], k - 1, parts - 1)[i]
        ensures t[m..][i] == SliceRoots(s[h..], k - 1, parts - 1)[i]
      {
        SliceOfHalf(s, k, parts, i);
      }
      assert t[..m] == SliceRoots(s[..h], k - 1, parts - 1);
      assert t[m..] == SliceRoots(s[h..], k - 1, parts - 1);
      SlicesCombine(s[..h], k - 1, parts - 1);
      SlicesCombine(s[h..], k - 1, parts - 1);
    }
  }

  lemma WholeSlice(s: seq<Digest>, k: nat)
    requires |s| == Pow2(k)
    ensures Slice(s, k, 0, 0) == s
  {
    assert Pow2(k) * 1 == Pow2(k);
  }

  /** Cutting the work into slices does not change the result. */
  lemma ThreadsAgree(s: seq<Digest>, k: nat)
    requires |s| == Pow2(k)
    ensures Threaded(s, k) == Perfect(s, k)
  {
    hide Perfect, SliceRoots;
    var parts := if |s| >= 2048 then 2 else if |s| >= 256 then 1 else 0;
    if parts <= k { SlicesCombine(s, k, parts); }
  }

  // ---- What the root is ----

  // The leaves of a tree of hashes, from left to right.
  function Leaves(d: Digest): (s: seq<Digest>) {
    match d
    case Empty => []
    case Leaf(_) => [d]
    case Combine(l, r) => Leaves(l) + Leaves(r)
  }

  // The tree that splits at the largest power of two below the number of digests.
  function Reference(s: seq<Digest>): (d: Digest)
    decreases |s|
  {
    if s == [] then Empty
    else if |s| == 1 then s[0]
    else
      var p := Pow2(Log2(|s| - 1));
      Combine(Reference(s[..p]), Reference(s[p..]))
  }

  lemma ReferenceHalves(s: seq<Digest>, k: nat)
    requires k > 0 && |s| == Pow2(k) == 2 * Pow2(k - 1)
    ensures Reference(s) == Combine(Reference(s[..Pow2(k - 1)]), Reference(s[Pow2(k - 1)..]))
  {
    hide Pow2, Log2;
    Log2Unique(|s| - 1, k - 1);
  }

  lemma OneIsReference(s: seq<Digest>)
    requires |s| == Pow2(0)
    ensures Perfect(s, 0) == Reference(s)
  {
  }

  lemma PerfectHalves(s: seq<Digest>, k: nat)
    requires k > 0 && |s| == Pow2(k)
    ensures Pow2(k) == 2 * Pow2(k - 1)
    ensures Perfect(s, k) == Combine(Perfect(s[..Pow2(k - 1)], k - 1), Perfect(s[Pow2(k - 1)..], k - 1))
  {
    Pow2Doubles(k);
  }

  lemma {:induction false} PerfectIsReference(s: seq<Digest>, k: nat)
    requires |s| == Pow2(k)
    ensures Perfect(s, k) == Reference(s)
    decreases k
  {
    hide Pow2, Perfect, Reference;
    if k == 0 {
      OneIsReference(s);
    } else {
      PerfectHalves(s, k);
      ReferenceHalves(s, k);
      PerfectIsReference(s[..Pow2(k - 1)], k - 1);
      PerfectIsReference(s[Pow2(k - 1)..], k - 1);
    }
  }

  /** The root is the hash of the tree that splits the digests, in order, at the largest power
      of two below their number, all the way down. */
  lemma {:induction false} MerkleIsReference(s: seq<Digest>)
    ensures CalculateMerkle(s) == Reference(s)
    decreases |s|
  {
    hide Perfect, Threaded, Pow2, Log2;
    if |s| <= 1 {
    } else {
      var k := Log2(|s|);
      if |s| == Pow2(k) {
        ThreadsAgree(s, k);
        PerfectIsReference(s, k);
      } else {
        ThreadsAgree(s[..Pow2(k)], k);
        PerfectIsReference(s[..Pow2(k)], k);
        MerkleIsReference(s[Pow2(k)..]);
        Log2Unique(|s| - 1, k);
      }
    }
  }

  lemma {:induction false} ReferenceLeaves(s: seq<Digest>)
    requires forall i :: 0 <= i < |s| ==> s[i].Leaf?
    ensures Leaves(Reference(s)) == s
    decreases |s|
  {
    if |s| <= 1 {
      assert |s| == 1 ==> s == [s[0]];
    } else {
      var p := Pow2(Log2(|s| - 1));
      ReferenceLeaves(s[..p]);
      ReferenceLeaves(s[p..]);
      assert s == s[..p] + s[p..];
    }
  }

  /** Read from left to right, the leaves under the root are the digests in order. */
  lemma LeavesInOrder(s: seq<Digest>)
    requires forall i :: 0 <= i < |s| ==> s[i].Leaf?
    ensures Leaves(CalculateMerkle(s)) == s
  {
    hide CalculateMerkle, Reference, Leaves;
    MerkleIsReference(s);
    ReferenceLeaves(s);
  }

  // ---- incremental_merkle_tree ----

  predicate IsSet(mask: nat, i: nat) {
    mask / Pow2(i) % 2 == 1
  }

  // The roots of the power-of-two trees that hold the digests, largest first.
  function Forest(s: seq<Digest>): (trees: seq<Digest>)
    ensures s == [] <==> trees == []
    decreases |s|
  {
    if s == [] then []
    else var k := Log2(|s|); [Perfect(s[..Pow2(k)], k)] + Forest(s[Pow2(k)..])
  }

  // _get_root: the trees combined from the smallest up.
  function Fold(trees: seq<Digest>): (d: Digest)
    requires trees != []
  {
    if |trees| == 1 then trees[0] else Combine(trees[0], Fold(trees[1..]))
  }

  /** The root kept by the incremental tree is the root of all its digests. */
  lemma {:induction false} FoldedForest(s: seq<Digest>)
    ensures CalculateMerkle(s) == if s == [] then Empty else Fold(Forest(s))
    decreases |s|
  {
    hide Perfect, Threaded;
    if s == [] {
    } else {
      var k := Log2(|s|);
      var rest := s[Pow2(k)..];
      FoldedForest(rest);
      ThreadsAgree(s[..Pow2(k)], k);
      if |s| == 1 { SingleTree(s[..Pow2(k)], k); }
      assert rest == [] ==> s[..Pow2(k)] == s;
      assert Forest(s)[1..] == Forest(rest);
    }
  }

  lemma SingleTree(s: seq<Digest>, k: nat)
    requires |s| == Pow2(k) == 1
    ensures Perfect(s, k) == s[0]
  {
  }

  // The digests counted by mask number a multiple of 2^i: q of them.
  lemma NextBit(mask: nat, i: nat, q: nat)
    requires mask == q * Pow2(i)
    ensures IsSet(mask, i) <==> q % 2 == 1
    ensures q % 2 == 0 ==> mask == (q / 2) * Pow2(i + 1)
    ensures q % 2 == 1 ==> mask >= Pow2(i) && mask - Pow2(i) == (q / 2) * Pow2(i + 1)
  {
    var p := Pow2(i);
    assert mask / p == q by { Quotient(q, p); }
    assert q == 2 * (q / 2) + q % 2;
    assert (q / 2) * (2 * p) == (2 * (q / 2)) * p;
    assert (2 * (q / 2) + q % 2) * p == (2 * (q / 2)) * p + (q % 2) * p;
  }

  lemma {:induction false} Log2Unique(n: nat, k: nat)
    requires Pow2(k) <= n < 2 * Pow2(k)
    ensures n > 0 && Log2(n) == k
    decreases k
  {
    if k == 0 {
    } else {
      Log2Unique(n / 2, k - 1);
    }
  }

  // A smaller tree after a forest of larger ones is a tree of its own.
  lemma {:induction false} ForestAppend(s: seq<Digest>, c: seq<Digest>, i: nat, q: nat)
    requires |s| == q * Pow2(i + 1) && |c| == Pow2(i)
    ensures Forest(s + c) == Forest(s) + [Perfect(c, i)]
    decreases |s|
  {
    hide Perfect;
    if s == [] {
      Log2Unique(|c|, i);
      assert s + c == c && c[..Pow2(i)] == c && c[Pow2(i)..] == [];
    } else {
      var k := Log2(|s|);
      MultipleBelow(|s|, i, q, k);
      Log2Unique(|s + c|, k);
      var p, r := Pow2(k), q - Pow2(k - i - 1);
      assert (s + c)[..p] == s[..p] && (s + c)[p..] == s[p..] + c;
      ForestAppend(s[p..], c, i, r);
    }
  }

  // A positive multiple of 2^(i+1) and the power of two below it.
  lemma MultipleBelow(n: nat, i: nat, q: nat, k: nat)
    requires n == q * Pow2(i + 1) && n > 0 && k == Log2(n)
    ensures k > i && n + Pow2(i) < 2 * Pow2(k)
    ensures q >= Pow2(k - i - 1) && n - Pow2(k) == (q - Pow2(k - i - 1)) * Pow2(i + 1)
  {
    hide Pow2, Log2;
    var m := Pow2(i + 1);
    Pow2Doubles(i + 1);
    if q == 0 { assert false; }
    Scaled(m, 1, q);
    if k <= i {
      Pow2Monotone(k + 1, i + 1);
      Pow2Doubles(k + 1);
    }
    var w := Pow2(k - i - 1);
    Pow2Product(k - i - 1, i + 1);
    BetweenMultiples(m, q, w);
  }

  lemma BetweenMultiples(m: nat, q: nat, w: nat)
    requires m > 0 && w * m <= q * m < 2 * (w * m)
    ensures w <= q && q * m + m <= 2 * (w * m) && q * m - w * m == (q - w) * m
  {
    assert m * (q + 1) == q * m + m && m * (2 * w) == 2 * (w * m);
    if q < w { Scaled(m, q + 1, w); }
    if q >= 2 * w { Scaled(m, 2 * w, q); }
    Scaled(m, q + 1, 2 * w);
  }

  lemma {:induction false} Pow2Monotone(a: nat, b: nat)
    requires a <= b
    ensures Pow2(a) <= Pow2(b)
  {
    if a == b {
    } else {
      Pow2Monotone(a, b - 1);
    }
  }

  // With the bits below i clear and bit i set, the bit above it.
  lemma BitAbove(mask: nat, i: nat, q: nat)
    requires mask == q * Pow2(i) && q % 2 == 1
    ensures IsSet(mask, i + 1) <==> q / 2 % 2 == 1
  {
    hide Pow2;
    NextBit(mask, i, q);
    Pow2Doubles(i + 1);
    var h, p := q / 2, Pow2(i + 1);
    assert mask == h * p + Pow2(i);
    QuotientWithRest(h, p, Pow2(i));
  }

  // The last tree of a forest whose smallest tree has 2^i digests.
  lemma LastTree(s: seq<Digest>, i: nat, q: nat) returns (front: seq<Digest>, tail: seq<Digest>)
    requires |s| == q * Pow2(i) && q % 2 == 1
    ensures s == front + tail && |front| == (q / 2) * Pow2(i + 1) && |tail| == Pow2(i)
    ensures Forest(s) == Forest(front) + [Perfect(tail, i)]
  {
    hide Forest, Perfect;
    NextBit(|s|, i, q);
    front, tail := s[..|s| - Pow2(i)], s[|s| - Pow2(i)..];
    ForestAppend(front, tail, i, q / 2);
  }

  lemma Merged(a: seq<Digest>, b: seq<Digest>, i: nat)
    requires |a| == Pow2(i) && |b| == Pow2(i)
    ensures |a + b| == Pow2(i + 1) && Perfect(a + b, i + 1) == Combine(Perfect(a, i), Perfect(b, i))
  {
    assert (a + b)[..Pow2(i)] == a && (a + b)[Pow2(i)..] == b;
  }

  class IncrementalMerkleTree {
    var mask: nat
    var trees: seq<Digest>
    ghost var digests: seq<Digest>

    ghost predicate Valid()
      reads this
    {
      mask == |digests| && trees == Forest(digests)
    }

    constructor ()
      ensures Valid() && digests == []
    {
      mask, trees, digests := 0, [], [];
    }

    // The mask is a 64-bit counter; a tree with all its bits set cannot take another digest.
    method Append(digest: Digest)
      requires Valid() && mask < 0xFFFF_FFFF_FFFF_FFFF
      modifies this
      ensures Valid() && digests == old(digests) + [digest]
    {
      assert Pow2(0) == 1;
      AppendAt(digest, |trees|, 0, [digest], mask);
    }

    // digest is the root of the 2^idx digests in block; every tree held has at least 2^idx
    // digests, and slot is the end of the trees.
    method AppendAt(digest: Digest, slot: nat, idx: nat, ghost block: seq<Digest>, ghost q: nat)
      requires Valid() && slot == |trees|
      requires mask == q * Pow2(idx) && |block| == Pow2(idx) && digest == Perfect(block, idx)
      modifies this
      ensures Valid() && digests == old(digests) + block
      decreases q
    {
      hide Forest, Perfect, Pow2, IsSet;
      NextBit(mask, idx, q);
      if IsSet(mask, idx) {
        BitAbove(mask, idx, q);
        ghost var front, tail := LastTree(digests, idx, q);
        Pow2Doubles(idx + 1);
        Merged(tail, block, idx);
        ghost var pair := tail + block;
        assert digests + block == front + pair;
        NextBit(|front|, idx + 1, q / 2);
        if !IsSet(mask, idx + 1) {
          trees := trees[slot - 1 := Combine(trees[slot - 1], digest)];
          mask := mask - Pow2(idx) + Pow2(idx + 1);
          ForestAppend(front, pair, idx + 1, q / 2 / 2);
          digests := digests + block;
          assert trees == Forest(front) + [Perfect(pair, idx + 1)];
        } else {
          ghost var whole := digests + block;
          ghost var front', tail' := LastTree(front, idx + 1, q / 2);
          Merged(tail', pair, idx + 1);
          assert Forest(digests) == Forest(front') + [Perfect(tail', idx + 1), Perfect(tail, idx)];
          var d := Combine(trees[slot - 2], Combine(trees[slot - 1], digest));
          trees := trees[..slot - 2];
          mask := mask - Pow2(idx) - Pow2(idx + 1);
          digests := front';
          assert trees == Forest(front');
          assert whole == front' + (tail' + pair);
          AppendAt(d, slot - 2, idx + 2, tail' + pair, q / 2 / 2);
        }
      } else {
        ForestAppend(digests, block, idx, q / 2);
        trees := trees[..slot] + [digest] + trees[slot..];
        mask := mask + Pow2(idx);
        digests := digests + block;
      }
    }

    method GetRoot() returns (d: Digest)
      requires Valid()
      ensures d == CalculateMerkle(digests)
    {
      FoldedForest(digests);
      if mask == 0 { return Empty; }
      d := Fold(trees);
    }
  }
}
