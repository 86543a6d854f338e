/**
  Quorum certificates and their verification. An aggregate signature is idealised as the
  multiset of the individual signatures it was built from.
 */
module Certificates {
  import opened Options
  import opened Policies
  import opened Blocks
  import opened HeaderStates

  /** A finalizer's signature on the strong or the weak digest of a block. */
  datatype Signature = Signature(key: Key, block: Block, strong: bool)

  datatype QcSig = QcSig(strongVotes: Option<Bits>, weakVotes: Option<Bits>, sig: multiset<Signature>)

  datatype Qc = Qc(num: nat, active: QcSig, pending: Option<QcSig>)

  predicate SigIsStrong(s: QcSig) {
    s.weakVotes.None?
  }

  predicate IsStrong(q: Qc) {
    SigIsStrong(q.active) && (q.pending.Some? ==> SigIsStrong(q.pending.value))
  }

  /** A bit of an optional bitset; absent bitsets and bits past the end read as clear. */
  predicate Bit(votes: Option<Bits>, i: nat) {
    votes.Some? && i < |votes.value| && votes.value[i]
  }

  /** At least one bitset, each of the policy's size, and nobody voting both ways. */
  predicate FormatOk(s: QcSig, p: Policy) {
    && (s.strongVotes.Some? || s.weakVotes.Some?)
    && (s.strongVotes.Some? ==> |s.strongVotes.value| == |p.finalizers|)
    && (s.weakVotes.Some? ==> |s.weakVotes.value| == |p.finalizers|)
    && (forall i :: 0 <= i < |p.finalizers| ==> !(Bit(s.strongVotes, i) && Bit(s.weakVotes, i)))
  }

  function VoteWeight(votes: Option<Bits>, p: Policy): (w: nat)
    requires votes.Some? ==> |votes.value| == |p.finalizers|
  {
    if votes.Some? then Weight(p.finalizers, votes.value) else 0
  }

  /** Quorum by strong votes alone for a strong signature, by all votes for a weak one. */
  predicate WeightsOk(s: QcSig, p: Policy)
    requires FormatOk(s, p)
  {
    if SigIsStrong(s) then VoteWeight(s.strongVotes, p) >= p.threshold
    else VoteWeight(s.strongVotes, p) + VoteWeight(s.weakVotes, p) >= p.threshold
  }

  /** The place of a key in a policy, by first occurrence. */
  function IndexOf(fs: seq<Authority>, key: Key): (r: Option<nat>)
    ensures r.Some? ==> r.value < |fs| && fs[r.value].key == key
    ensures r.Some? ==> forall i :: 0 <= i < r.value ==> fs[i].key != key
    ensures r.None? ==> forall i :: 0 <= i < |fs| ==> fs[i].key != key
  {
    if fs == [] then None
    else if fs[0].key == key then Some(0)
    else
      var r := IndexOf(fs[1..], key);
      if r.None? then None else Some(r.value + 1)
  }

  predicate VoteSameAt(a: QcSig, b: QcSig, i: nat, j: nat) {
    && Bit(a.strongVotes, i) == Bit(b.strongVotes, j)
    && Bit(a.weakVotes, i) == Bit(b.weakVotes, j)
  }

  /** Every finalizer of both policies shows the same vote in both signatures. */
  predicate DualVotesAgree(v: Policy, w: Policy, a: QcSig, b: QcSig) {
    forall i :: 0 <= i < |v.finalizers| ==>
      var j := IndexOf(w.finalizers, v.finalizers[i].key);
      j.Some? ==> VoteSameAt(a, b, i, j.value)
  }

  /** `verify_basic`. */
  predicate BasicOk(q: Qc, v: VotingPolicies) {
    && FormatOk(q.active, v.active) && WeightsOk(q.active, v.active)
    && (q.pending.Some? <==> v.pending.Some?)
    && (q.pending.Some? ==>
          && DualVotesAgree(v.active, v.pending.value, q.active, q.pending.value)
          && FormatOk(q.pending.value, v.pending.value) && WeightsOk(q.pending.value, v.pending.value))
  }

  /** What makes one signature unacceptable, and with it the certificate: no bitset at all, one
      of the wrong size, a finalizer in both, or too little weight. */
  predicate Unacceptable(s: QcSig, p: Policy) {
    || (s.strongVotes.None? && s.weakVotes.None?)
    || (s.strongVotes.Some? && |s.strongVotes.value| != |p.finalizers|)
    || (s.weakVotes.Some? && |s.weakVotes.value| != |p.finalizers|)
    || (exists i :: 0 <= i < |p.finalizers| && Bit(s.strongVotes, i) && Bit(s.weakVotes, i))
  }

  predicate TooLight(s: QcSig, p: Policy)
    requires s.strongVotes.Some? ==> |s.strongVotes.value| == |p.finalizers|
    requires s.weakVotes.Some? ==> |s.weakVotes.value| == |p.finalizers|
  {
    VoteWeight(s.strongVotes, p) + VoteWeight(s.weakVotes, p) < p.threshold
  }

  /** A certificate passes the basic check if and only if it has a signature for exactly the
      policies in force, each acceptable and heavy enough, and no finalizer of both policies is
      shown differently. */
  lemma BasicOkExactly(q: Qc, v: VotingPolicies)
    ensures BasicOk(q, v) <==>
      && (q.pending.Some? <==> v.pending.Some?)
      && !Unacceptable(q.active, v.active) && !TooLight(q.active, v.active)
      && (q.pending.Some? ==>
            && !Unacceptable(q.pending.value, v.pending.value) && !TooLight(q.pending.value, v.pending.value)
            && !exists i, j :: 0 <= i < |v.active.finalizers| && 0 <= j < |v.pending.value.finalizers|
                 && FirstAt(v.pending.value.finalizers, j, v.active.finalizers[i].key)
                 && !VoteSameAt(q.active, q.pending.value, i, j))
  {
    hide FormatOk, WeightsOk, Unacceptable, TooLight, DualVotesAgree;
    AcceptableExactly(q.active, v.active);
    if q.pending.Some? && v.pending.Some? {
      AcceptableExactly(q.pending.value, v.pending.value);
      DualExactly(v.active, v.pending.value, q.active, q.pending.value);
    }
  }

  lemma AcceptableExactly(s: QcSig, p: Policy)
    ensures !Unacceptable(s, p) ==>
      && (s.strongVotes.Some? ==> |s.strongVotes.value| == |p.finalizers|)
      && (s.weakVotes.Some? ==> |s.weakVotes.value| == |p.finalizers|)
    ensures FormatOk(s, p) <==> !Unacceptable(s, p)
    ensures FormatOk(s, p) ==> (WeightsOk(s, p) <==> !TooLight(s, p))
  {
  }

  lemma DualExactly(v: Policy, w: Policy, a: QcSig, b: QcSig)
    ensures DualVotesAgree(v, w, a, b) <==>
      !exists i, j :: 0 <= i < |v.finalizers| && 0 <= j < |w.finalizers|
         && FirstAt(w.finalizers, j, v.finalizers[i].key) && !VoteSameAt(a, b, i, j)
  {
    hide VoteSameAt;
    forall i | 0 <= i < |v.finalizers|
      ensures var j := IndexOf(w.finalizers, v.finalizers[i].key);
        && (j.Some? ==> FirstAt(w.finalizers, j.value, v.finalizers[i].key))
        && forall k :: 0 <= k < |w.finalizers| && FirstAt(w.finalizers, k, v.finalizers[i].key) ==> j == Some(k)
    {
    }
  }

  /** Place `j` is the first with that key. */
  predicate FirstAt(fs: seq<Authority>, j: nat, key: Key) {
    j < |fs| && fs[j].key == key && forall i :: 0 <= i < j ==> fs[i].key != key
  }

  /** The signatures that a bitset stands for. */
  function SignedTo(fs: seq<Authority>, votes: Option<Bits>, b: Block, strong: bool, n: nat): (m: multiset<Signature>)
    requires n <= |fs|
  {
    if n == 0 then multiset{}
    else SignedTo(fs, votes, b, strong, n - 1) +
         if Bit(votes, n - 1) then multiset{Signature(fs[n - 1].key, b, strong)} else multiset{}
  }

  function Signed(p: Policy, votes: Option<Bits>, b: Block, strong: bool): (m: multiset<Signature>) {
    SignedTo(p.finalizers, votes, b, strong, |p.finalizers|)
  }

  /** `verify_signatures`: the aggregate is exactly the signatures the bits announce. */
  predicate SignaturesOk(s: QcSig, p: Policy, b: Block) {
    s.sig == Signed(p, s.strongVotes, b, true) + Signed(p, s.weakVotes, b, false)
  }

  predicate QcSignaturesOk(q: Qc, v: VotingPolicies, b: Block) {
    && SignaturesOk(q.active, v.active, b)
    && (q.pending.Some? ==> v.pending.Some? && SignaturesOk(q.pending.value, v.pending.value, b))
  }

  lemma SignedStep(fs: seq<Authority>, votes: Option<Bits>, b: Block, strong: bool, n: nat)
    requires 0 < n <= |fs|
    ensures SignedTo(fs, votes, b, strong, n) == SignedTo(fs, votes, b, strong, n - 1) +
      if Bit(votes, n - 1) then multiset{Signature(fs[n - 1].key, b, strong)} else multiset{}
  {
  }

  lemma {:induction false} BitIsSigned(fs: seq<Authority>, votes: Option<Bits>, b: Block, strong: bool, n: nat, i: nat)
    requires i < n <= |fs| && Bit(votes, i)
    ensures Signature(fs[i].key, b, strong) in SignedTo(fs, votes, b, strong, n)
  {
    hide SignedTo, Bit;
    SignedStep(fs, votes, b, strong, n);
    if i == n - 1 {
    } else {
      BitIsSigned(fs, votes, b, strong, n - 1, i);
    }
  }

  lemma {:induction false} AbsentIsUnsigned(fs: seq<Authority>, b: Block, n: nat)
    requires n <= |fs|
    ensures SignedTo(fs, None, b, false, n) == multiset{}
  {
    if n == 0 {
    } else {
      AbsentIsUnsigned(fs, b, n - 1);
    }
  }

  // ---- the loops ----------------------------------------------------------------------

  method SumWeights(fs: seq<Authority>, bits: Bits) returns (sum: nat)
    requires |fs| == |bits|
    ensures sum == Weight(fs, bits) % UINT64_LIMIT
  {
    sum := 0;
    for i := 0 to |fs|
      invariant sum == WeightTo(fs, bits, i) % UINT64_LIMIT
    {
      if bits[i] {
        sum := (sum + fs[i].weight) % UINT64_LIMIT;
      }
    }
  }

  method VerifyVoteFormat(s: QcSig, p: Policy) returns (ok: bool)
    ensures ok == FormatOk(s, p)
  {
    if s.strongVotes.None? && s.weakVotes.None? {
      return false;
    }
    if s.strongVotes.Some? && |s.strongVotes.value| != |p.finalizers| {
      return false;
    }
    if s.weakVotes.Some? && |s.weakVotes.value| != |p.finalizers| {
      return false;
    }
    if s.strongVotes.Some? && s.weakVotes.Some? {
      for i := 0 to |s.strongVotes.value|
        invariant forall k :: 0 <= k < i ==> !(Bit(s.strongVotes, k) && Bit(s.weakVotes, k))
      {
        if s.strongVotes.value[i] && s.weakVotes.value[i] {
          assert Bit(s.strongVotes, i) && Bit(s.weakVotes, i);
          return false;
        }
      }
    }
    ok := true;
  }

  /** The sums are taken modulo 2^64; for a policy admitted by `set_finalizers` and a
      well-formed signature they cannot wrap. */
  method VerifyWeights(s: QcSig, p: Policy) returns (ok: bool)
    requires FormatOk(s, p) && Total(p) < UINT64_LIMIT
    ensures ok == WeightsOk(s, p)
  {
    WeightsFit(s, p);
    var strong, weak := 0, 0;
    if s.strongVotes.Some? { strong := SumWeights(p.finalizers, s.strongVotes.value); }
    if s.weakVotes.Some? { weak := SumWeights(p.finalizers, s.weakVotes.value); }
    if SigIsStrong(s) {
      ok := strong >= p.threshold;
    } else {
      ok := (strong + weak) % UINT64_LIMIT >= p.threshold;
    }
  }

  lemma {:induction false} DisjointWeightsTo(fs: seq<Authority>, a: Option<Bits>, b: Option<Bits>, n: nat)
    requires n <= |fs|
    requires a.Some? ==> |a.value| == |fs|
    requires b.Some? ==> |b.value| == |fs|
    requires forall i :: 0 <= i < n ==> !(Bit(a, i) && Bit(b, i))
    ensures (if a.Some? then WeightTo(fs, a.value, n) else 0) + (if b.Some? then WeightTo(fs, b.value, n) else 0)
         <= TotalTo(fs, n)
  {
    if n == 0 {
    } else {
      DisjointWeightsTo(fs, a, b, n - 1);
      assert !(Bit(a, n - 1) && Bit(b, n - 1));
    }
  }

  lemma WeightsFit(s: QcSig, p: Policy)
    requires FormatOk(s, p)
    ensures VoteWeight(s.strongVotes, p) + VoteWeight(s.weakVotes, p) <= Total(p)
  {
    DisjointWeightsTo(p.finalizers, s.strongVotes, s.weakVotes, |p.finalizers|);
  }

  method VerifyDualFinalizersVotes(v: Policy, w: Policy, a: QcSig, b: QcSig) returns (ok: bool)
    ensures ok == DualVotesAgree(v, w, a, b)
  {
    for i := 0 to |v.finalizers|
      invariant forall k :: 0 <= k < i ==>
        var j := IndexOf(w.finalizers, v.finalizers[k].key);
        j.Some? ==> VoteSameAt(a, b, k, j.value)
    {
      var key := v.finalizers[i].key;
      var j := 0;
      while j < |w.finalizers| && w.finalizers[j].key != key
        invariant j <= |w.finalizers|
        invariant forall k :: 0 <= k < j ==> w.finalizers[k].key != key
      {
        j := j + 1;
      }
      ghost var at := IndexOf(w.finalizers, key);
      assert at == if j < |w.finalizers| then Some(j) else None;
      if j < |w.finalizers| && !VoteSameAt(a, b, i, j) {
        return false;
      }
    }
    ok := true;
  }

  method VerifyBasic(q: Qc, v: VotingPolicies) returns (ok: bool)
    requires Total(v.active) < UINT64_LIMIT
    requires v.pending.Some? ==> Total(v.pending.value) < UINT64_LIMIT
    ensures ok == BasicOk(q, v)
  {
    ok := VerifyVoteFormat(q.active, v.active);
    if !ok { return; }
    ok := VerifyWeights(q.active, v.active);
    if !ok { return; }
    if q.pending.Some? {
      if v.pending.None? { return false; }
      ok := VerifyDualFinalizersVotes(v.active, v.pending.value, q.active, q.pending.value);
      if !ok { return; }
      ok := VerifyVoteFormat(q.pending.value, v.pending.value);
      if !ok { return; }
      ok := VerifyWeights(q.pending.value, v.pending.value);
    } else {
      ok := v.pending.None?;
    }
  }
}
