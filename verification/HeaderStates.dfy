/**
  Block header states: what each block computes from its parent, and how far that state
  agrees with the chain it summarises.
 */
module HeaderStates {
  import opened Options
  import opened Policies
  import opened Blocks
  import opened FinalityCore
  import opened PolicyPipeline

  datatype HeaderState = HeaderState(
    core: Core,
    policies: PolicyState,
    latestQcClaimBlockActivePolicy: Option<Policy>,
    generation: nat)

  function PendingGeneration(s: PolicyState): (g: nat) {
    if s.pending.Some? then s.pending.value.policy.generation else 0
  }

  function MakeBlockRef(b: Block, s: HeaderState): (r: BlockRef) {
    BlockRef(b, b.timestamp, s.policies.active.generation, PendingGeneration(s.policies))
  }

  /** The policies under which votes for one block are counted. */
  datatype VotingPolicies = VotingPolicies(active: Policy, pending: Option<Policy>)

  function PoliciesOf(s: HeaderState): (v: VotingPolicies) {
    VotingPolicies(s.policies.active, if s.policies.pending.Some? then Some(s.policies.pending.value.policy) else None)
  }

  /** Looks up the policies of an earlier block by generation number. None is the logic
      error the source guards against. */
  function GetFinalizerPolicies(s: HeaderState, ref: BlockRef): (r: Option<VotingPolicies>) {
    var active :=
      if s.policies.active.generation == ref.activeGeneration then Some(s.policies.active)
      else if s.latestQcClaimBlockActivePolicy.Some?
           && s.latestQcClaimBlockActivePolicy.value.generation == ref.activeGeneration
      then s.latestQcClaimBlockActivePolicy
      else None;
    if active.None? then None
    else if ref.pendingGeneration == 0 then Some(VotingPolicies(active.value, None))
    else if ref.pendingGeneration == s.policies.active.generation then
      Some(VotingPolicies(active.value, Some(s.policies.active)))
    else if s.policies.pending.Some? && s.policies.pending.value.policy.generation == ref.pendingGeneration then
      Some(VotingPolicies(active.value, Some(s.policies.pending.value.policy)))
    else None
  }

  /** The core of `b`'s state sits at `b`: right number, right claim, parent referenced last. */
  ghost predicate CoreSitsAt(c: Core, b: Block) {
    && Invariants(c)
    && CurrentBlockNum(c) == Num(b)
    && LatestQcClaim(c) == Claim(b)
    && (if b.Genesis? then c.refs == [] && c.genesisTimestamp == b.timestamp
        else c.refs != [] && c.refs[|c.refs| - 1].id == b.parent
             && c.refs[|c.refs| - 1].timestamp == b.parent.timestamp)
  }

  /** The reference for block number `num`, which may be the block itself. */
  function RefFor(b: Block, s: HeaderState, num: nat): (r: BlockRef)
    requires CoreSitsAt(s.core, b)
    requires LastFinalBlockNum(s.core) <= num <= Num(b)
  {
    if num == Num(b) then MakeBlockRef(b, s) else GetBlockReference(s.core, num)
  }

  function GetFinalizerPoliciesAt(b: Block, s: HeaderState, num: nat): (r: Option<VotingPolicies>)
    requires CoreSitsAt(s.core, b)
    requires LastFinalBlockNum(s.core) <= num <= Num(b)
  {
    GetFinalizerPolicies(s, RefFor(b, s, num))
  }

  function NextCoreFor(prev: HeaderState, b: Block): (core: Core)
    requires b.Next? && ChainOk(b) && CoreSitsAt(prev.core, b.parent)
    ensures CoreSitsAt(core, b)
  {
    FollowsParent(prev, b);
    NextCore(prev.core, MakeBlockRef(b.parent, prev), b.claim)
  }

  lemma FollowsParent(prev: HeaderState, b: Block)
    requires b.Next? && ChainOk(b) && CoreSitsAt(prev.core, b.parent)
    ensures CanFollow(prev.core, MakeBlockRef(b.parent, prev), b.claim)
    ensures CoreSitsAt(NextCore(prev.core, MakeBlockRef(b.parent, prev), b.claim), b)
  {
    hide LinksOrdered, RefsOrdered, NextCore;
    assert ChainOk(b.parent);
    NextCoreEnds(prev.core, MakeBlockRef(b.parent, prev), b.claim);
  }

  function NextPolicies(prev: HeaderState, b: Block, core: Core): (p: PolicyState)
    requires b.Next? && core.links != []
  {
    Step(prev.policies, Num(b), Input(LastFinalBlockNum(core), b.timestamp, b.proposal))
  }

  /** The policy active at the claimed block, remembered only when `active` has replaced it.
      The outer None is the logic error of the lookup. */
  function NextClaimPolicy(prev: HeaderState, b: Block, core: Core, active: Policy): (r: Option<Option<Policy>>)
    requires b.Next? && ChainOk(b) && CoreSitsAt(prev.core, b.parent) && CoreSitsAt(core, b)
  {
    ClaimCovered(prev.core, b);
    ClaimCoveredNext(core, b);
    if RefFor(b.parent, prev, b.claim.num).activeGeneration == active.generation then Some(None)
    else
      var found := GetFinalizerPolicies(prev, GetBlockReference(core, b.claim.num));
      if found.None? then None else Some(Some(found.value.active))
  }

  /** `finish_next`. None when a check of the source throws. The core sits at the new block,
      and the generation counter rises exactly when the block proposes a policy. */
  function FinishNext(prev: HeaderState, b: Block): (r: Option<HeaderState>)
    requires b.Next? && ChainOk(b) && CoreSitsAt(prev.core, b.parent)
    ensures r.Some? ==> CoreSitsAt(r.value.core, b)
    ensures r.Some? ==> prev.generation <= r.value.generation && (prev.generation < r.value.generation <==> b.proposal.Some?)
    ensures b.proposal.Some? && b.proposal.value.generation <= prev.generation ==> r.None?
  {
    var core := NextCoreFor(prev, b);
    var policies := NextPolicies(prev, b, core);
    var claimPolicy := NextClaimPolicy(prev, b, core, policies.active);
    if b.proposal.Some? && b.proposal.value.generation <= prev.generation then None
    else if claimPolicy.None? then None
    else
      var generation := if b.proposal.Some? then b.proposal.value.generation else prev.generation;
      Some(HeaderState(core, policies, claimPolicy.value, generation))
  }

  lemma ClaimCovered(c: Core, b: Block)
    requires b.Next? && ChainOk(b) && CoreSitsAt(c, b.parent)
    ensures LastFinalBlockNum(c) <= b.claim.num <= Num(b.parent)
  {
  }

  lemma ClaimCoveredNext(c: Core, b: Block)
    requires b.Next? && ChainOk(b) && CoreSitsAt(c, b)
    ensures LastFinalBlockNum(c) <= b.claim.num < Num(b)
  {
  }

  /** The header state of a block, computed along its whole chain. */
  function State(b: Block): (s: Option<HeaderState>)
    requires ChainOk(b)
    ensures s.Some? ==> CoreSitsAt(s.value.core, b)
  {
    match b
    case Genesis(num, timestamp, policy) =>
      Some(HeaderState(GenesisCore(num, timestamp), PolicyState(policy, None, [], timestamp), None, 1))
    case Next(parent, _, _, _, _) =>
      var prev := State(parent);
      if prev.None? then None else FinishNext(prev.value, b)
  }

  /** A chain whose every header was accepted, from a first-generation genesis policy. */
  ghost predicate Valid(b: Block) {
    ChainOk(b) && Root(b).policy.generation == 1 && State(b).Some?
  }

  function Of(b: Block): (s: HeaderState)
    requires Valid(b)
    ensures CoreSitsAt(s.core, b)
  {
    State(b).value
  }
}
