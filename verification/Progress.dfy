/**
  Progress: enough strong votes on a block and on the block that claims it make it final.
 */
module Progress {
  import opened Options
  import opened Policies
  import opened Blocks
  import opened FinalityCore
  import opened HeaderStates
  import opened PolicyHistory
  import opened Certificates
  import opened Protocol

  /** The finalizers of a policy that have sent a strong ballot for `b`. */
  function StrongBits(v: Ballots, p: Policy, b: Block): (bits: Bits)
    ensures |bits| == |p.finalizers|
  {
    seq(|p.finalizers|, i requires 0 <= i < |p.finalizers| => Ballot(b, true) in BallotsOf(v, p.finalizers[i].key))
  }

  /** They reach the threshold of every policy that votes on `b`. */
  predicate StrongQuorum(v: Ballots, pol: VotingPolicies, b: Block) {
    && Weight(pol.active.finalizers, StrongBits(v, pol.active, b)) >= pol.active.threshold
    && (pol.pending.Some? ==>
          Weight(pol.pending.value.finalizers, StrongBits(v, pol.pending.value, b)) >= pol.pending.value.threshold)
  }

  function StrongSig(v: Ballots, p: Policy, b: Block): (s: QcSig) {
    var bits := Some(StrongBits(v, p, b));
    QcSig(bits, None, Signed(p, bits, b, true))
  }

  lemma {:induction false} SignedIsCast(v: Ballots, p: Policy, b: Block, n: nat, x: Signature)
    requires n <= |p.finalizers| && x in SignedTo(p.finalizers, Some(StrongBits(v, p, b)), b, true, n)
    ensures Protocol.Cast(v, x)
  {
    var votes := Some(StrongBits(v, p, b));
    if x in SignedTo(p.finalizers, votes, b, true, n - 1) {
      SignedIsCast(v, p, b, n - 1, x);
    } else {
      assert Bit(votes, n - 1) && x == Signature(p.finalizers[n - 1].key, b, true);
    }
  }

  lemma SigVerifies(v: Ballots, p: Policy, b: Block)
    ensures SignaturesOk(StrongSig(v, p, b), p, b) && SigCast(v, StrongSig(v, p, b))
  {
    hide SignedTo, StrongBits;
    var sig := StrongSig(v, p, b);
    forall x | x in sig.sig ensures Protocol.Cast(v, x) { SignedIsCast(v, p, b, |p.finalizers|, x); }
    AbsentIsUnsigned(p.finalizers, b, |p.finalizers|);
  }

  /** Strong votes that reach every threshold make a strong certificate that verifies. */
  lemma StrongVotesCertify(v: Ballots, b: Block) returns (q: Qc)
    requires Valid(b) && StrongQuorum(v, PoliciesOf(Of(b)), b)
    ensures QcFor(v, b, q) && IsStrong(q) && q.num == Num(b)
  {
    hide State, SignedTo, WeightTo;
    var pol := PoliciesOf(Of(b));
    q := Qc(Num(b), StrongSig(v, pol.active, b),
            if pol.pending.Some? then Some(StrongSig(v, pol.pending.value, b)) else None);
    SigVerifies(v, pol.active, b);
    if pol.pending.Some? { SigVerifies(v, pol.pending.value, b); }
  }

  /** A certified block may be extended by a block that claims it. */
  lemma ClaimIsAccepted(v: Ballots, root: Block, b: Block, q: Qc, c: Block)
    requires Accepted(v, root, b) && b.Next? && QcFor(v, b, q) && q.num == Num(b)
    requires c.Next? && c.parent == b && c.timestamp > b.timestamp && c.proposal.None?
    requires c.claim == QcClaim(Num(b), IsStrong(q))
    ensures Accepted(v, root, c)
  {
    hide State, Proves, GetFinalizerPoliciesAt, GetBlockReference;
    ClaimInRange(b);
    RejectedOnlyForGeneration(c);
    RetrievalIsExact(b, b);
    RefForTracks(b, b);
    assert ClaimProven(v, c, q);
  }

  /** Two strong quorums in a row finalize: if the strong votes on an accepted block `b` and
      on a block `c` that claims it reach the thresholds, a block that claims `c` is
      accepted and makes `b` final. */
  lemma QuorumsFinalize(v: Ballots, root: Block, b: Block, c: Block, d: Block)
    requires Accepted(v, root, b) && b.Next? && StrongQuorum(v, PoliciesOf(Of(b)), b)
    requires c.Next? && c.parent == b && c.timestamp > b.timestamp && c.proposal.None?
    requires c.claim == QcClaim(Num(b), true)
    requires Valid(c) ==> StrongQuorum(v, PoliciesOf(Of(c)), c)
    requires d.Next? && d.parent == c && d.timestamp > c.timestamp && d.proposal.None?
    requires d.claim == QcClaim(Num(c), true)
    ensures Accepted(v, root, c) && Accepted(v, root, d) && LibBlock(d) == b
  {
    hide State, StrongQuorum, QcFor;
    var q := StrongVotesCertify(v, b);
    ClaimIsAccepted(v, root, b, q, c);
    var r := StrongVotesCertify(v, c);
    ClaimIsAccepted(v, root, c, r, d);
    AncIsAncestorAt(b, c);
    AncIsAncestorAt(c, d);
  }
}
