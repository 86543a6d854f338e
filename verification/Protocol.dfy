/**
  The protocol as a whole: a growing pool of ballots, the blocks those ballots justify,
  and the steps honest and faulty finalizers can take.
 */
module Protocol {
  import opened Policies
  import opened Blocks
  import opened HeaderStates
  import opened PolicyHistory
  import opened Certificates

  /** A vote that has been signed and sent. */
  datatype Ballot = Ballot(block: Block, strong: bool)

  /** All ballots, per key in the order they were signed. */
  type Ballots = map<Key, seq<Ballot>>

  function BallotsOf(v: Ballots, k: Key): (bs: seq<Ballot>) {
    if k in v then v[k] else []
  }

  predicate Cast(v: Ballots, s: Signature) {
    Ballot(s.block, s.strong) in BallotsOf(v, s.key)
  }

  predicate SigCast(v: Ballots, s: QcSig) {
    forall x :: x in s.sig ==> Cast(v, x)
  }

  predicate AllCast(v: Ballots, q: Qc) {
    SigCast(v, q.active) && (q.pending.Some? ==> SigCast(v, q.pending.value))
  }

  /** `q` passes verification for a block with these policies, and its signatures are real. */
  predicate Proves(v: Ballots, q: Qc, pol: VotingPolicies, b: Block) {
    BasicOk(q, pol) && QcSignaturesOk(q, pol, b) && AllCast(v, q)
  }

  /** The QC carried by `b` proves its claim, judged as the parent's state judges it. */
  ghost predicate ClaimProven(v: Ballots, b: Block, q: Qc)
    requires b.Next? && Valid(b) && Valid(b.parent)
  {
    ClaimCovered(Of(b.parent).core, b);
    var pol := GetFinalizerPoliciesAt(b.parent, Of(b.parent), b.claim.num);
    && q.num == b.claim.num
    && IsStrong(q) == b.claim.strong
    && pol.Some?
    && Proves(v, q, pol.value, RefFor(b.parent, Of(b.parent), b.claim.num).id)
  }

  /** A block every honest node accepts: valid headers, and each new claim proven. */
  ghost predicate Accepted(v: Ballots, root: Block, b: Block) {
    && Valid(b)
    && if b.Genesis? then b == root
       else
         && Accepted(v, root, b.parent)
         && (b.claim == Claim(b.parent) || exists q :: ClaimProven(v, b, q))
  }

  ghost predicate QcFor(v: Ballots, x: Block, q: Qc)
    requires Valid(x)
  {
    Proves(v, q, PoliciesOf(Of(x)), x)
  }

  ghost predicate Certified(v: Ballots, x: Block) {
    Valid(x) && exists q :: QcFor(v, x, q)
  }

  ghost predicate StronglyCertified(v: Ballots, x: Block) {
    Valid(x) && exists q :: IsStrong(q) && QcFor(v, x, q)
  }

  ghost predicate Grounded(v: Ballots, root: Block, x: Block) {
    Accepted(v, root, x) && (x == root || Certified(v, x))
  }

  lemma {:induction false} AcceptedAncestor(v: Ballots, root: Block, a: Block, b: Block)
    requires Accepted(v, root, b) && Anc(a, b)
    ensures Accepted(v, root, a) && Root(a) == root
  {
    if a != b {
      AcceptedAncestor(v, root, a, b.parent);
    } else if b.Next? {
      AcceptedAncestor(v, root, b.parent, b.parent);
    }
  }

  /** A claim that is not the parent's is accepted if and only if a certificate of the claimed
      strength for the claimed block verifies under that block's own policies. */
  lemma NewClaimExactly(v: Ballots, root: Block, b: Block)
    requires b.Next? && Valid(b) && Accepted(v, root, b.parent) && b.claim != Claim(b.parent)
    ensures Valid(QcBlock(b))
    ensures Accepted(v, root, b) <==>
      exists q :: QcFor(v, QcBlock(b), q) && q.num == b.claim.num && IsStrong(q) == b.claim.strong
  {
    hide State, BasicOk, GetFinalizerPoliciesAt;
    var x := QcBlock(b);
    assert Anc(x, b.parent);
    AcceptedAncestor(v, root, x, b.parent);
    RetrievalIsExact(b.parent, x);
    RefForTracks(b.parent, x);
    forall q ensures ClaimProven(v, b, q) <==> QcFor(v, x, q) && q.num == b.claim.num && IsStrong(q) == b.claim.strong {
    }
  }

  /** Every claim along an accepted chain is backed by a verified certificate for the block
      it names, except the genesis block's claim on itself. */
  lemma {:induction false} ClaimsAreBacked(v: Ballots, root: Block, b: Block)
    requires Accepted(v, root, b)
    ensures Grounded(v, root, QcBlock(b))
    ensures Claim(b).strong ==> StronglyCertified(v, QcBlock(b))
  {
    hide State, BasicOk, GetFinalizerPoliciesAt;
    var x := QcBlock(b);
    AcceptedAncestor(v, root, x, b);
    if b.Genesis? {
    } else {
      if b.claim == Claim(b.parent) {
        ClaimsAreBacked(v, root, b.parent);
        assert x == QcBlock(b.parent);
      } else {
        var q :| ClaimProven(v, b, q);
        assert Anc(x, b.parent);
        RetrievalIsExact(b.parent, x);
        RefForTracks(b.parent, x);
        assert QcFor(v, x, q);
      }
    }
  }
}
