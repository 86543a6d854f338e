/**
  Finalizer policies along a chain: in what order they take effect, that the header state
  can always recover those of an earlier block, and that a change of policy is sealed by
  certificates of both the old and the new policy.
 */
module PolicyHistory {
  import opened Options
  import opened Policies
  import opened Blocks
  import opened FinalityCore
  import opened PolicyPipeline
  import opened HeaderStates
  import opened ChainTracking

  function ActiveAt(b: Block): (p: Policy)
    requires Valid(b)
  {
    Of(b).policies.active
  }

  function PendingAt(b: Block): (p: Option<Stamped>)
    requires Valid(b)
  {
    Of(b).policies.pending
  }

  /** One step along the chain, with LIB read off the two-chain rule. */
  lemma PoliciesStep(b: Block)
    requires b.Next? && Valid(b)
    ensures Valid(b.parent)
    ensures Of(b).policies ==
      Step(Of(b.parent).policies, Num(b), Input(Num(LibBlock(b)), b.timestamp, b.proposal))
    ensures Of(b).generation ==
      NextGeneration(Of(b.parent).generation, Input(Num(LibBlock(b)), b.timestamp, b.proposal))
    ensures b.proposal.Some? ==> b.proposal.value.generation > Of(b.parent).generation
    ensures Num(LibBlock(b)) < Num(b)
  {
    hide NextCore, LinksOrdered, RefsOrdered, Step;
    CanFollowParent(b);
    CoreTracksChain(b);
    LibIsAncestor(b);
    ClaimInRange(b);
  }

  lemma OrderedAtGenesis(b: Block)
    requires b.Genesis? && Valid(b)
    ensures Ordered(Of(b).policies, Num(b), Of(b).generation)
    ensures ActiveAt(b).generation >= 1
  {
  }

  lemma {:induction false} OrderedAlongChain(b: Block)
    requires Valid(b)
    ensures Ordered(Of(b).policies, Num(b), Of(b).generation)
    ensures ActiveAt(b).generation >= 1
  {
    hide Step, Queue, Of, State, LibBlock;
    if b.Genesis? {
      OrderedAtGenesis(b);
    } else {
      PoliciesStep(b);
      OrderedAlongChain(b.parent);
      StepKeepsOrder(Of(b.parent).policies, Num(b.parent),
        Input(Num(LibBlock(b)), b.timestamp, b.proposal), Of(b.parent).generation);
    }
  }

  /** What can have happened to the policies between `a` and a later block `x` whose last
      final block is still at or below `a`: nothing, or the activation of the policy
      pending at `a`; anything pending since then is stamped above `a`. */
  ghost predicate Window(a: Block, x: Block)
    requires Valid(a) && Valid(x) && ChainOk(x)
  {
    || ( && ActiveAt(x) == ActiveAt(a)
         && (PendingAt(a).Some? ==> PendingAt(x) == PendingAt(a))
         && (PendingAt(a).None? && PendingAt(x).Some? ==> PendingAt(x).value.num > Num(a)))
    || ( && PendingAt(a).Some?
         && PendingAt(a).value.num <= Num(LibBlock(x))
         && ActiveAt(x) == PendingAt(a).value.policy
         && (PendingAt(x).Some? ==> PendingAt(x).value.num > Num(a)))
  }

  lemma WindowStep(a: Block, x: Block)
    requires x.Next? && Valid(a) && Valid(x) && Valid(x.parent) && Window(a, x.parent)
    requires Num(LibBlock(x.parent)) <= Num(LibBlock(x)) <= Num(a) < Num(x)
    ensures Window(a, x)
  {
    hide Step, State, LibBlock, ChainOk, Root;
    PoliciesStep(x);
    StepActive(Of(x.parent).policies, Num(x), Input(Num(LibBlock(x)), x.timestamp, x.proposal));
  }

  lemma {:induction false} PolicyWindow(a: Block, x: Block)
    requires Anc(a, x) && Valid(x)
    requires Num(LibBlock(x)) <= Num(a)
    ensures Valid(a) && Window(a, x)
  {
    hide Step, State, LibBlock;
    ValidAncestor(a, x);
    if a == x {
    } else {
      AncOrder(a, x);
      LibMonotone(x.parent, x);
      ValidAncestor(x.parent, x);
      PolicyWindow(a, x.parent);
      WindowStep(a, x);
    }
  }

  /** The header state remembers the policy active at the claimed block exactly when it is
      no longer the active one. */
  ghost predicate ClaimPolicyTracks(b: Block)
    requires Valid(b)
  {
    && Valid(QcBlock(b))
    && Of(b).latestQcClaimBlockActivePolicy ==
         if ActiveAt(QcBlock(b)).generation == ActiveAt(b).generation then None else Some(ActiveAt(QcBlock(b)))
  }

  /** Between the claimed block and the head at most one policy change can have happened:
      a second one would need a block above the claimed one to be final already. */
  lemma AtMostOneActivation(b: Block, a: Block)
    requires Valid(b) && Anc(a, b) && Claim(b).num <= Num(a)
    ensures Valid(a) && Valid(QcBlock(b))
    ensures if ActiveAt(b) == ActiveAt(a) then PendingAt(a).Some? ==> PendingAt(b) == PendingAt(a)
            else PendingAt(a).Some? && ActiveAt(b) == PendingAt(a).value.policy && ActiveAt(a) == ActiveAt(QcBlock(b))
  {
    hide State, LibBlock, Queue;
    var q := QcBlock(b);
    LibIsAncestor(b);
    AncOrder(a, b);
    AncOrder(q, b);
    PolicyWindow(a, b);
    OrderedAlongChain(a);
    AncLinear(q, a, b);
    LibMonotone(a, b);
    PolicyWindow(q, a);
  }

  lemma RetrievalWithin(b: Block, a: Block)
    requires Valid(b) && Anc(a, b) && Claim(b).num <= Num(a)
    requires ClaimPolicyTracks(b)
    ensures Valid(a)
    ensures GetFinalizerPolicies(Of(b), RefOf(a)) == Some(PoliciesOf(Of(a)))
  {
    hide State, LibBlock, Queue;
    AtMostOneActivation(b, a);
    OrderedAlongChain(a);
    OrderedAlongChain(b);
  }

  /** The lookup by generation number never hits its logic error, and returns exactly the
      policies of the block asked for, for every block from the claimed one to the head. */
  lemma {:induction false} RetrievalIsExact(b: Block, a: Block)
    requires Valid(b) && Anc(a, b) && Claim(b).num <= Num(a)
    ensures Valid(a)
    ensures LastFinalBlockNum(Of(b).core) <= Num(a) <= Num(b)
    ensures GetFinalizerPoliciesAt(b, Of(b), Num(a)) == Some(PoliciesOf(Of(a)))
  {
    hide State, LibBlock, GetFinalizerPolicies, GetBlockReference;
    ClaimPolicyAlongChain(b);
    RetrievalWithin(b, a);
    RefForTracks(b, a);
  }

  lemma RefForTracks(b: Block, a: Block)
    requires Valid(b) && Anc(a, b) && Claim(b).num <= Num(a)
    ensures Valid(a)
    ensures LastFinalBlockNum(Of(b).core) <= Num(a) <= Num(b)
    ensures RefFor(b, Of(b), Num(a)) == RefOf(a)
  {
    hide State, LibBlock, GetBlockReference;
    ValidAncestor(a, b);
    CoreTracksChain(b);
    LibIsAncestor(b);
    AncOrder(a, b);
    AncIsAncestorAt(a, b);
    if Num(a) < Num(b) {
      assert ReferenceTracks(b, Num(a));
    }
  }

  lemma {:induction false} ClaimPolicyAlongChain(b: Block)
    requires Valid(b)
    ensures ClaimPolicyTracks(b)
  {
    if b.Genesis? {
    } else {
      ClaimPolicyAlongChain(b.parent);
      ClaimPolicyStep(b);
    }
  }

  lemma ClaimPolicyStep(b: Block)
    requires b.Next? && Valid(b) && Valid(b.parent) && ClaimPolicyTracks(b.parent)
    ensures ClaimPolicyTracks(b)
  {
    hide NextCore, GetFinalizerPolicies, GetBlockReference, LinksOrdered, RefsOrdered, LibBlock;
    var q := QcBlock(b);
    AncOrder(q, b);
    ValidAncestor(q, b);
    assert Anc(q, b.parent);
    RefForTracks(b.parent, q);
    RefForTracks(b, q);
    RetrievalWithin(b.parent, q);
  }

  /** A header is rejected by `finish_next` for one reason only: a proposal whose generation
      does not exceed the last one. */
  lemma RejectedOnlyForGeneration(b: Block)
    requires b.Next? && ChainOk(b) && Valid(b.parent)
    ensures Valid(b) <==> (b.proposal.Some? ==> b.proposal.value.generation > Of(b.parent).generation)
  {
    hide GetFinalizerPolicies, GetBlockReference, LinksOrdered, RefsOrdered, LibBlock, NextCore;
    var q := QcBlock(b);
    var prev := Of(b.parent);
    assert Anc(q, b.parent);
    AncOrder(b.parent, b);
    ClaimPolicyAlongChain(b.parent);
    RetrievalWithin(b.parent, q);
    RefForTracks(b.parent, q);
    assert ChainOk(b.parent);
    NextCoreReference(prev.core, MakeBlockRef(b.parent, prev), b.claim, b.claim.num);
  }

  /** A pending policy has been pending, beside the same active policy, ever since the
      block of its stamp. */
  lemma {:induction false} PendingSince(b: Block, x: Block)
    requires Valid(b) && PendingAt(b).Some?
    requires Anc(x, b) && PendingAt(b).value.num <= Num(x)
    ensures Valid(x) && PendingAt(x) == PendingAt(b) && ActiveAt(x) == ActiveAt(b)
  {
    hide Step, State, LibBlock, Queue;
    ValidAncestor(x, b);
    if x == b {
    } else {
      AncOrder(x, b);
      PoliciesStep(b);
      OrderedAlongChain(b.parent);
      StepActive(Of(b.parent).policies, Num(b), Input(Num(LibBlock(b)), b.timestamp, b.proposal));
      PendingSince(b.parent, x);
    }
  }

  /** Joint quorum. When block `b` replaces active policy A by B, there are two blocks on the
      chain, the newly final one and the strongly certified one that made it final, and
      both were voted on under A and B together. */
  lemma JointQuorum(b: Block) returns (y: Block, x: Block, final: Block)
    requires b.Next? && Valid(b) && Valid(b.parent) && ActiveAt(b) != ActiveAt(b.parent)
    ensures final == LibBlock(b)
    ensures Anc(y, b) && y.Next? && y.claim.strong
    ensures Valid(y) && x == QcBlock(y)
    ensures Valid(x) && final == QcBlock(x)
    ensures Valid(final)
    ensures PoliciesOf(Of(x)) == VotingPolicies(ActiveAt(b.parent), Some(ActiveAt(b)))
    ensures PoliciesOf(Of(final)) == VotingPolicies(ActiveAt(b.parent), Some(ActiveAt(b)))
  {
    hide Step, State, LibBlock, Queue;
    PoliciesStep(b);
    StepActive(Of(b.parent).policies, Num(b), Input(Num(LibBlock(b)), b.timestamp, b.proposal));
    var p := PendingAt(b.parent).value;
    assert p.num <= Num(LibBlock(b));
    LibIsFromStrongClaim(b);
    LibIsAncestor(b);
    JointQuorumIsNotGenesis(b);
    y, final := StrongClaimer(b), LibBlock(b);
    ValidAncestor(y, b);
    x := QcBlock(y);
    QcBlockMonotone(y, b);
    AncOrder(x, b);
    AncOrder(final, x);
    PendingSince(b.parent, final);
    AncOrder(y, b);
    AncOrder(x, y);
    PendingSince(b.parent, x);
  }

  /** The root is never the block that seals a change: nothing is pending there. */
  lemma JointQuorumIsNotGenesis(b: Block)
    requires b.Next? && Valid(b) && Valid(b.parent)
    requires PendingAt(b.parent).Some? && PendingAt(b.parent).value.num <= Num(LibBlock(b))
    ensures StrongClaimer(b).Next?
  {
    hide Step, LibBlock, Queue;
    LibIsFromStrongClaim(b);
    if StrongClaimer(b).Genesis? {
      RootIsLowest(b.parent);
      PendingSince(b.parent, Root(b));
      assert false;
    }
  }

  /** The remembered start of the pending period is the time of the block in which the pending
      policy became pending. */
  lemma {:induction false} PendingStartTracks(b: Block)
    requires Valid(b) && PendingAt(b).Some?
    ensures var n := PendingAt(b).value.num;
      Num(Root(b)) <= n <= Num(b) && Of(b).policies.lastPendingStart == AncestorAt(b, n).timestamp
  {
    hide Step, State, LibBlock, Queue;
    OrderedAlongChain(b);
    if b.Genesis? {
      GenesisPolicies(b);
    } else {
      PoliciesStep(b);
      OrderedAlongChain(b.parent);
      var s, x := Of(b.parent).policies, Input(Num(LibBlock(b)), b.timestamp, b.proposal);
      StepActive(s, Num(b), x);
      StepPendingStart(s, Num(b), x);
      RootIsLowest(b);
      if PendingAt(b).value.num < Num(b) { PendingStartTracks(b.parent); }
    }
  }

  // ---- where policies come from -------------------------------------------------------------

  /** Block `x` on the branch of `b` proposed `p`. */
  predicate ProposedAt(b: Block, x: Block, p: Policy) {
    Anc(x, b) && x.Next? && x.proposal == Some(p)
  }

  /** The genesis policy, or one proposed in a block that is final in `b`. */
  ghost predicate FromFinal(b: Block, p: Policy)
    requires ChainOk(b)
  {
    p == Root(b).policy || exists x :: ProposedAt(b, x, p) && Num(x) <= Num(LibBlock(b))
  }

  ghost predicate QueueIsProposed(b: Block)
    requires Valid(b)
  {
    forall st :: st in Of(b).policies.proposed ==> exists x :: ProposedAt(b, x, st.policy) && Num(x) == st.num
  }

  lemma FromFinalStays(b: Block, p: Policy)
    requires b.Next? && ChainOk(b) && FromFinal(b.parent, p)
    ensures FromFinal(b, p)
  {
    hide LibBlock;
    LibMonotone(b.parent, b);
    if p != Root(b).policy {
      var x :| ProposedAt(b.parent, x, p) && Num(x) <= Num(LibBlock(b.parent));
      assert ProposedAt(b, x, p);
    }
  }

  lemma FinalProposal(b: Block, st: Stamped)
    requires b.Next? && Valid(b) && Valid(b.parent) && QueueIsProposed(b.parent)
    requires st in Of(b.parent).policies.proposed && st.num <= Num(LibBlock(b))
    ensures FromFinal(b, st.policy)
  {
    hide LibBlock, State;
    var x :| ProposedAt(b.parent, x, st.policy) && Num(x) == st.num;
    assert ProposedAt(b, x, st.policy);
  }

  lemma QueueStep(b: Block)
    requires b.Next? && Valid(b) && Valid(b.parent) && QueueIsProposed(b.parent)
    ensures QueueIsProposed(b)
  {
    hide State, Step, LibBlock;
    PoliciesStep(b);
    StepSources(Of(b.parent).policies, Num(b), Input(Num(LibBlock(b)), b.timestamp, b.proposal));
    forall st | st in Of(b).policies.proposed ensures exists x :: ProposedAt(b, x, st.policy) && Num(x) == st.num {
      if st in Of(b.parent).policies.proposed {
        var x :| ProposedAt(b.parent, x, st.policy) && Num(x) == st.num;
        assert ProposedAt(b, x, st.policy);
      } else {
        assert ProposedAt(b, b, st.policy);
      }
    }
  }

  /** Every policy that votes on a block is the genesis policy or was proposed, on the same
      branch, in a block that is already final there. */
  lemma {:induction false} PoliciesAreProposed(b: Block)
    requires Valid(b)
    ensures FromFinal(b, ActiveAt(b)) && QueueIsProposed(b)
    ensures PendingAt(b).Some? ==> FromFinal(b, PendingAt(b).value.policy)
  {
    hide Step, FromFinal, QueueIsProposed, LibBlock, ChainOk;
    if b.Genesis? {
      GenesisPolicies(b);
    } else {
      PoliciesStep(b);
      PoliciesAreProposed(b.parent);
      hide State;
      var s := Of(b.parent).policies;
      StepSources(s, Num(b), Input(Num(LibBlock(b)), b.timestamp, b.proposal));
      QueueStep(b);
      FromFinalStays(b, s.active);
      if s.pending.Some? { FromFinalStays(b, s.pending.value.policy); }
      forall i | 0 <= i < |s.proposed| && s.proposed[i].num <= Num(LibBlock(b))
        ensures FromFinal(b, s.proposed[i].policy)
      {
        FinalProposal(b, s.proposed[i]);
      }
    }
  }

  lemma GenesisPolicies(b: Block)
    requires b.Genesis? && Valid(b)
    ensures FromFinal(b, ActiveAt(b)) && QueueIsProposed(b) && PendingAt(b).None?
  {
  }
}
