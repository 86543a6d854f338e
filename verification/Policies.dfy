/**
  Finalizer policies: weighted voter sets with a quorum threshold, and the weights of
  vote bitsets over them.
 */
module Policies {
  /** A BLS public key; only equality of keys matters here. */
  type Key = nat

  datatype Authority = Authority(key: Key, weight: nat)

  datatype Policy = Policy(generation: nat, threshold: nat, finalizers: seq<Authority>)

  const UINT64_LIMIT: int := 0x1_0000_0000_0000_0000
  const UINT32_LIMIT: int := 0x1_0000_0000
  const INT32_LIMIT: int := 0x8000_0000

  /** One bit per finalizer of a policy, in policy order. */
  type Bits = seq<bool>

  ghost predicate DistinctKeys(fs: seq<Authority>) {
    forall i, j :: 0 <= i < j < |fs| ==> fs[i].key != fs[j].key
  }

  function TotalTo(fs: seq<Authority>, n: nat): (w: nat)
    requires n <= |fs|
  {
    if n == 0 then 0 else TotalTo(fs, n - 1) + fs[n - 1].weight
  }

  function Total(p: Policy): (w: nat) {
    TotalTo(p.finalizers, |p.finalizers|)
  }

  function WeightTo(fs: seq<Authority>, bits: Bits, n: nat): (w: nat)
    requires n <= |fs| == |bits|
  {
    if n == 0 then 0 else WeightTo(fs, bits, n - 1) + if bits[n - 1] then fs[n - 1].weight else 0
  }

  /** The accumulated weight of the finalizers whose bit is set. */
  function Weight(fs: seq<Authority>, bits: Bits): (w: nat)
    requires |fs| == |bits|
  {
    WeightTo(fs, bits, |fs|)
  }

  function And(a: Bits, b: Bits): (r: Bits)
    requires |a| == |b|
    ensures |r| == |a|
  {
    seq(|a|, i requires 0 <= i < |a| => a[i] && b[i])
  }

  function Or(a: Bits, b: Bits): (r: Bits)
    requires |a| == |b|
    ensures |r| == |a|
  {
    seq(|a|, i requires 0 <= i < |a| => a[i] || b[i])
  }

  /** What `set_finalizers` demands of a policy before it can be proposed. */
  ghost predicate WellFormed(p: Policy) {
    && 0 < |p.finalizers|
    && DistinctKeys(p.finalizers)
    && Total(p) < UINT64_LIMIT
    && Total(p) / 2 < p.threshold <= Total(p)
  }

  lemma {:induction false} InclusionExclusionTo(fs: seq<Authority>, a: Bits, b: Bits, n: nat)
    requires n <= |fs| == |a| == |b|
    ensures WeightTo(fs, a, n) + WeightTo(fs, b, n) == WeightTo(fs, And(a, b), n) + WeightTo(fs, Or(a, b), n)
    ensures WeightTo(fs, Or(a, b), n) <= TotalTo(fs, n)
  {
    if n == 0 {
    } else {
      InclusionExclusionTo(fs, a, b, n - 1);
    }
  }

  /** Two quorums of one policy overlap in weight at least 2t - W; that is a third of the
      total whenever the threshold is at least two thirds of it. */
  lemma QuorumIntersection(p: Policy, a: Bits, b: Bits)
    requires |p.finalizers| == |a| == |b|
    requires Weight(p.finalizers, a) >= p.threshold
    requires Weight(p.finalizers, b) >= p.threshold
    ensures Weight(p.finalizers, And(a, b)) >= 2 * p.threshold - Total(p)
    ensures 3 * p.threshold >= 2 * Total(p) ==> 3 * Weight(p.finalizers, And(a, b)) >= Total(p)
  {
    InclusionExclusionTo(p.finalizers, a, b, |a|);
  }

  /** Weight held by keys that are not in `honest`. */
  function FaultyTo(fs: seq<Authority>, honest: set<Key>, n: nat): (w: nat)
    requires n <= |fs|
  {
    if n == 0 then 0
    else FaultyTo(fs, honest, n - 1) + if fs[n - 1].key in honest then 0 else fs[n - 1].weight
  }

  /** The fault bound under which a policy is safe: the faulty weight is below the
      guaranteed overlap of two quorums. */
  predicate Trusted(p: Policy, honest: set<Key>) {
    Total(p) + FaultyTo(p.finalizers, honest, |p.finalizers|) < 2 * p.threshold
  }

  lemma {:induction false} FaultyOverlapTo(fs: seq<Authority>, bits: Bits, honest: set<Key>, n: nat)
    requires n <= |fs| == |bits|
    requires forall i :: 0 <= i < n && bits[i] ==> fs[i].key !in honest
    ensures WeightTo(fs, bits, n) <= FaultyTo(fs, honest, n)
  {
    if n == 0 {
    } else {
      FaultyOverlapTo(fs, bits, honest, n - 1);
    }
  }

  /** Any two quorums of a trusted policy share an honest finalizer. */
  lemma HonestOverlap(p: Policy, a: Bits, b: Bits, honest: set<Key>) returns (i: nat)
    requires |p.finalizers| == |a| == |b|
    requires Trusted(p, honest)
    requires Weight(p.finalizers, a) >= p.threshold
    requires Weight(p.finalizers, b) >= p.threshold
    ensures i < |p.finalizers| && a[i] && b[i] && p.finalizers[i].key in honest
  {
    QuorumIntersection(p, a, b);
    if forall k :: 0 <= k < |a| && And(a, b)[k] ==> p.finalizers[k].key !in honest {
      FaultyOverlapTo(p.finalizers, And(a, b), honest, |a|);
      assert false;
    }
    i :| 0 <= i < |a| && And(a, b)[i] && p.finalizers[i].key in honest;
  }
}
