/**
  Runs of any length in which finality keeps moving, a policy is replaced and a faulty key
  signs on a fork, under all the assumptions of the safety theorem.
 */
module Witness {
  import opened Options
  import opened Policies
  import opened Blocks
  import opened PolicyPipeline
  import opened HeaderStates
  import opened PolicyHistory
  import opened Finalizers
  import opened Protocol
  import opened Safety
  import opened Runs
  import opened Progress
  import opened Liveness

  // Key 0 is honest and decides alone; keys 8 and 9 are faulty.
  const OLD: Policy := Policy(1, 3, [Authority(0, 3), Authority(9, 1)])
  const NEW: Policy := Policy(2, 3, [Authority(0, 3), Authority(8, 1)])

  /** A chain in which the first block proposes the new policy and every later one claims a
      strong certificate for its parent. */
  function Trunk(i: nat): (b: Block)
    ensures Num(b) == i + 1 && b.timestamp == i + 1
  {
    if i == 0 then Genesis(1, 1, OLD)
    else Next(Trunk(i - 1), i + 1, QcClaim(i, i > 1), if i == 1 then Some(NEW) else None, 0)
  }

  function Fork(): (b: Block) {
    Next(Trunk(0), 2, QcClaim(1, false), None, 1)
  }

  lemma {:induction false} TrunkIsChain(i: nat)
    ensures ChainOk(Trunk(i)) && Root(Trunk(i)) == Trunk(0)
    ensures i > 0 ==> QcBlock(Trunk(i)) == Trunk(i - 1)
  {
    if i == 0 {
    } else {
      hide QcBlock, AncestorAt;
      TrunkIsChain(i - 1);
      var b := Trunk(i);
      assert b.parent == Trunk(i - 1) && b.claim == QcClaim(i, i > 1);
      assert Claim(b.parent) == QcClaim(if i == 1 then 1 else i - 1, i > 2);
      ClaimsParent(b);
    }
  }

  lemma TrunkFinal(i: nat)
    ensures ChainOk(Trunk(i)) && LibBlock(Trunk(i)) == Trunk(if i < 2 then 0 else i - 2)
  {
    TrunkIsChain(i);
    if i > 0 { TrunkIsChain(i - 1); }
  }

  lemma {:induction false} TrunkAncestor(y: Block, i: nat) returns (j: nat)
    requires Anc(y, Trunk(i))
    ensures j <= i && y == Trunk(j)
  {
    if y == Trunk(i) {
      j := i;
    } else {
      j := TrunkAncestor(y, i - 1);
    }
  }

  lemma RootIsValid()
    ensures Valid(Trunk(0)) && Of(Trunk(0)).policies == PolicyState(OLD, None, [], 1) && Of(Trunk(0)).generation == 1
  {
  }

  lemma {:induction false} TrunkIsValid(i: nat)
    ensures Valid(Trunk(i))
  {
    hide State, ChainOk;
    RootIsValid();
    if i == 0 {
    } else {
      TrunkIsValid(i - 1);
      TrunkIsChain(i);
      RejectedOnlyForGeneration(Trunk(i));
    }
  }

  // ---- the policies along the trunk ----------------------------------------------------------

  predicate InSlots(s: PolicyState, active: Policy, pending: Option<Stamped>, proposed: seq<Stamped>) {
    s.active == active && s.pending == pending && s.proposed == proposed
  }

  predicate TrunkPolicies(i: nat, s: PolicyState) {
    if i == 0 then InSlots(s, OLD, None, [])
    else if i < 3 then InSlots(s, OLD, None, [Stamped(2, NEW)])
    else if i < 5 then InSlots(s, OLD, Some(Stamped(4, NEW)), [])
    else InSlots(s, NEW, None, [])
  }

  lemma StepAlongTrunk(i: nat, s: PolicyState, now: nat)
    requires i > 0 && TrunkPolicies(i - 1, s)
    ensures var lib := if i < 2 then 1 else i - 1;
      TrunkPolicies(i, Step(s, i + 1, Input(lib, now, if i == 1 then Some(NEW) else None)))
  {
    var lib := if i < 2 then 1 else i - 1;
    var queue := [Stamped(2, NEW)];
    assert queue[1..] == [];
    assert FirstReversible(queue, lib) == if 2 <= lib then 1 else 0;
    assert FirstReversible([], lib) == 0;
  }

  lemma TrunkGrows(i: nat)
    requires i > 0
    ensures Trunk(i) == Next(Trunk(i - 1), i + 1, QcClaim(i, i > 1), if i == 1 then Some(NEW) else None, 0)
  {
  }

  lemma {:induction false} PoliciesAlongTrunk(i: nat)
    ensures Valid(Trunk(i)) && TrunkPolicies(i, Of(Trunk(i)).policies)
  {
    hide State, Step, LibBlock, ChainOk, TrunkPolicies, Trunk;
    TrunkIsValid(i);
    if i == 0 {
      GenesisOnTrunk();
    } else {
      PoliciesAlongTrunk(i - 1);
      TrunkGrows(i);
      PoliciesStep(Trunk(i));
      TrunkFinal(i);
      StepAlongTrunk(i, Of(Trunk(i - 1)).policies, Trunk(i).timestamp);
    }
  }

  lemma GenesisOnTrunk()
    ensures Valid(Trunk(0)) && TrunkPolicies(0, Of(Trunk(0)).policies)
  {
    RootIsValid();
  }

  // ---- what the ballots of key 0 allow -------------------------------------------------------

  /** The honest key votes on the trunk only. */
  ghost predicate OnTrunk(v: Ballots) {
    forall x :: x in BallotsOf(v, 0) ==> exists i: nat :: i > 0 && x.block == Trunk(i)
  }

  predicate Admitted(p: Policy) {
    p == OLD || p == NEW
  }

  lemma AdmittedWeights(p: Policy, bits: Bits)
    requires Admitted(p) && |bits| == 2
    ensures Weight(p.finalizers, bits) >= p.threshold <==> bits[0]
    ensures Trusted(p, {0})
  {
    var fs := p.finalizers;
    assert WeightTo(fs, bits, 1) == if bits[0] then 3 else 0;
    assert WeightTo(fs, bits, 2) == WeightTo(fs, bits, 1) + if bits[1] then 1 else 0;
    assert TotalTo(fs, 1) == 3 && TotalTo(fs, 2) == 4;
    assert FaultyTo(fs, {0}, 1) == 0 && FaultyTo(fs, {0}, 2) == 1;
  }

  lemma CertifiedOnTrunk(v: Ballots, x: Block) returns (i: nat)
    requires OnTrunk(v) && Certified(v, x) && Admitted(ActiveAt(x))
    ensures i > 0 && x == Trunk(i)
  {
    hide State, QcFor, Weight, Trusted;
    var q :| QcFor(v, x, q);
    var p := ActiveAt(x);
    var bits := QcIsQuorum(v, x, q, p);
    AdmittedWeights(p, bits);
    assert BallotFor(v, 0, x, false);
    i :| i > 0 && x == Trunk(i);
  }

  /** Only the two policies are ever in force. */
  ghost predicate InForceAdmitted(b: Block)
    requires Valid(b)
  {
    Admitted(ActiveAt(b)) && (PendingAt(b).Some? ==> Admitted(PendingAt(b).value.policy))
  }

  lemma FinalOnTrunk(b: Block, i: nat)
    requires Valid(b) && Root(b) == Trunk(0) && LibBlock(b) == Trunk(i)
    ensures InForceAdmitted(b)
  {
    hide State, LibBlock, ChainOk;
    PoliciesAreProposed(b);
    ProposedOnTrunk(b, i, ActiveAt(b));
    if PendingAt(b).Some? { ProposedOnTrunk(b, i, PendingAt(b).value.policy); }
  }

  lemma ProposedOnTrunk(b: Block, i: nat, p: Policy)
    requires ChainOk(b) && Root(b) == Trunk(0) && LibBlock(b) == Trunk(i) && FromFinal(b, p)
    ensures Admitted(p)
  {
    hide LibBlock, ChainOk;
    if p != OLD {
      var y :| ProposedAt(b, y, p) && Num(y) <= Num(LibBlock(b));
      LibIsAncestor(b);
      AncLinear(y, LibBlock(b), b);
      AncOrder(LibBlock(b), b);
      if Anc(LibBlock(b), y) { AncOrder(y, b); AncOrder(LibBlock(b), y); }
      var j := TrunkAncestor(y, i);
    }
  }

  lemma {:induction false} AllAdmitted(v: Ballots, b: Block)
    requires OnTrunk(v) && Accepted(v, Trunk(0), b)
    ensures Valid(b) && InForceAdmitted(b)
    decreases Num(b)
  {
    hide State, LibBlock, InForceAdmitted, Accepted, StronglyCertified, OnTrunk, Trunk, ChainOk, Valid;
    AcceptedAncestor(v, Trunk(0), b, b);
    AcceptedValid(v, b);
    var x := FinalIsSealed(v, Trunk(0), b);
    if LibBlock(b) == Trunk(0) {
      FinalOnTrunk(b, 0);
    } else {
      Below(b, x);
      AllAdmitted(v, x);
      var i := SealedOnTrunk(v, x);
      TrunkIsChain(i);
      FinalOnTrunk(b, i - 1);
    }
  }

  lemma AcceptedValid(v: Ballots, b: Block)
    requires Accepted(v, Trunk(0), b)
    ensures Valid(b)
  {
  }

  lemma Below(b: Block, x: Block)
    requires ChainOk(b) && Anc(x, QcBlock(b)) && (b.Genesis? ==> LibBlock(b) != Trunk(0))
    requires Root(b) == Trunk(0)
    ensures Num(x) < Num(b)
  {
    AncOrder(QcBlock(b), b);
    AncOrder(x, QcBlock(b));
  }

  lemma SealedOnTrunk(v: Ballots, x: Block) returns (i: nat)
    requires OnTrunk(v) && Valid(x) && InForceAdmitted(x) && StronglyCertified(v, x)
    ensures i > 0 && x == Trunk(i)
  {
    hide State, QcFor, OnTrunk;
    i := CertifiedOnTrunk(v, x);
  }

  lemma TrunkIsTrusted(v: Ballots)
    requires OnTrunk(v)
    ensures PoliciesTrusted(v, Trunk(0), {0})
  {
    hide State, Accepted, OnTrunk, Trusted, Valid;
    AdmittedWeights(OLD, [true, true]);
    AdmittedWeights(NEW, [true, true]);
    forall b | Accepted(v, Trunk(0), b)
      ensures Valid(b) && Trusted(ActiveAt(b), {0}) && (PendingAt(b).Some? ==> Trusted(PendingAt(b).value.policy, {0}))
    {
      AllAdmitted(v, b);
    }
  }

  // ---- the honest key carries the chain on ---------------------------------------------------

  lemma {:induction false} ProposedBefore(l: Block, x: Block, y: Block)
    requires Plain(l, x) && Anc(y, x) && y.Next? && y.proposal.Some?
    ensures Anc(y, l)
  {
    if x == l {
    } else {
      ProposedBefore(l, x.parent, y);
    }
  }

  lemma {:induction false} PlainRoot(l: Block, x: Block)
    requires Plain(l, x)
    ensures Root(x) == Root(l)
  {
    if x == l {
    } else {
      PlainRoot(l, x.parent);
    }
  }

  lemma CarriedOn(i: nat, x: Block)
    requires Plain(Trunk(i), x) && Valid(x)
    ensures InForceAdmitted(x)
  {
    hide State, LibBlock, ChainOk;
    TrunkIsChain(i);
    PlainRoot(Trunk(i), x);
    PoliciesAreProposed(x);
    ProposedBeforeTrunk(i, x, ActiveAt(x));
    if PendingAt(x).Some? { ProposedBeforeTrunk(i, x, PendingAt(x).value.policy); }
  }

  lemma ProposedBeforeTrunk(i: nat, x: Block, p: Policy)
    requires Plain(Trunk(i), x) && ChainOk(x) && Root(x) == Trunk(0) && FromFinal(x, p)
    ensures Admitted(p)
  {
    hide LibBlock, ChainOk;
    if p != OLD {
      var y :| ProposedAt(x, y, p) && Num(y) <= Num(LibBlock(x));
      ProposedBefore(Trunk(i), x, y);
      var j := TrunkAncestor(y, i);
    }
  }

  lemma AdmittedSuffices(x: Block)
    requires Valid(x) && InForceAdmitted(x)
    ensures Suffice({0}, PoliciesOf(Of(x)))
  {
    hide State, WeightTo, Trusted;
    AdmittedWeights(ActiveAt(x), BitsOf(ActiveAt(x), {0}));
    if PendingAt(x).Some? {
      var p := PendingAt(x).value.policy;
      AdmittedWeights(p, BitsOf(p, {0}));
    }
  }

  lemma TrunkIsCarried(v: Ballots)
    requires OnTrunk(v)
    ensures HonestCarry(v, Trunk(0), {0})
  {
    hide State, Accepted, OnTrunk, QcFor, Suffice, InForceAdmitted, Trunk, Plain;
    forall l, x | Grounded(v, Trunk(0), l) && Plain(l, x) && Valid(x)
      ensures Suffice({0}, PoliciesOf(Of(x)))
    {
      var i := GroundedOnTrunk(v, l);
      CarriedOn(i, x);
      AdmittedSuffices(x);
    }
  }

  lemma GroundedOnTrunk(v: Ballots, l: Block) returns (i: nat)
    requires OnTrunk(v) && Grounded(v, Trunk(0), l)
    ensures l == Trunk(i)
  {
    hide State, Accepted, OnTrunk, QcFor, Trunk;
    i := 0;
    if l != Trunk(0) {
      AllAdmitted(v, l);
      i := CertifiedOnTrunk(v, l);
    }
  }

  // ---- the run ---------------------------------------------------------------------------------

  /** Key 0 has voted strong on the trunk up to block `n`. */
  ghost predicate VotedTo(v: Ballots, n: nat) {
    OnTrunk(v) && forall i: nat :: 0 < i <= n ==> Ballot(Trunk(i), true) in BallotsOf(v, 0)
  }

  lemma SoleQuorum(v: Ballots, b: Block)
    requires OnTrunk(v) && Accepted(v, Trunk(0), b) && Ballot(b, true) in BallotsOf(v, 0)
    ensures Valid(b) && StrongQuorum(v, PoliciesOf(Of(b)), b)
  {
    hide State, Accepted, OnTrunk, Trusted, Weight, Valid;
    AllAdmitted(v, b);
    AdmittedWeights(ActiveAt(b), StrongBits(v, ActiveAt(b), b));
    if PendingAt(b).Some? {
      var p := PendingAt(b).value.policy;
      AdmittedWeights(p, StrongBits(v, p, b));
    }
  }

  lemma {:induction false} TrunkIsAccepted(v: Ballots, n: nat, i: nat)
    requires VotedTo(v, n) && i <= n + 1
    ensures Accepted(v, Trunk(0), Trunk(i))
  {
    hide State, OnTrunk, StrongQuorum, ChainOk, QcFor;
    TrunkIsValid(i);
    if i == 1 {
      TrunkIsAccepted(v, n, 0);
    } else if i > 1 {
      TrunkIsAccepted(v, n, i - 1);
      SoleQuorum(v, Trunk(i - 1));
      var q := StrongVotesCertify(v, Trunk(i - 1));
      hide Accepted;
      ClaimIsAccepted(v, Trunk(0), Trunk(i - 1), q, Trunk(i));
    }
  }

  lemma VoteStep(v: Ballots, b: Block) returns (t: System)
    requires b.Next? && Valid(b) && Valid(b.parent) && Accepted(v, Trunk(0), b)
    ensures t == System(AddBallot(v, 0, Ballot(b, true)), map[0 := VotedAlong(b)])
    ensures Transition(System(v, map[0 := VotedAlong(b.parent)]), t, Trunk(0), {0})
  {
    hide State, Accepted, Vote, AfterVote, Trunk;
    var s := System(v, map[0 := VotedAlong(b.parent)]);
    AlwaysStrongOnOneBranch(b);
    assert Enabled(s, Trunk(0), {0}, HonestVote(0, b));
    t := After(s, Trunk(0), {0}, HonestVote(0, b));
    assert t.fsi == map[0 := VotedAlong(b)];
  }

  lemma OneMoreVote(v: Ballots, n: nat)
    requires VotedTo(v, n)
    ensures VotedTo(AddBallot(v, 0, Ballot(Trunk(n + 1), true)), n + 1)
    ensures BallotsOf(AddBallot(v, 0, Ballot(Trunk(n + 1), true)), 9) == BallotsOf(v, 9)
  {
    hide Trunk;
    var w := AddBallot(v, 0, Ballot(Trunk(n + 1), true));
    assert BallotsOf(w, 0) == BallotsOf(v, 0) + [Ballot(Trunk(n + 1), true)];
    forall x | x in BallotsOf(w, 0) ensures exists i: nat :: i > 0 && x.block == Trunk(i) {
      if x == Ballot(Trunk(n + 1), true) { assert x.block == Trunk(n + 1); }
    }
  }

  /** The faulty key has signed the fork; the honest one has started. */
  lemma Beginning() returns (ss: seq<System>)
    ensures Run(Trunk(0), {0}, ss) && Valid(Trunk(0))
    ensures var last := ss[|ss| - 1];
      && last.fsi == map[0 := VotedAlong(Trunk(0))] && VotedTo(last.ballots, 0)
      && BallotsOf(last.ballots, 9) == [Ballot(Fork(), true)]
  {
    hide State;
    RootIsValid();
    var s0 := System(map[], map[]);
    var s1 := After(s0, Trunk(0), {0}, FaultyVote(9, Ballot(Fork(), true)));
    assert Enabled(s0, Trunk(0), {0}, FaultyVote(9, Ballot(Fork(), true)));
    assert Accepted(s1.ballots, Trunk(0), Trunk(0));
    assert Enabled(s1, Trunk(0), {0}, Start(0, Trunk(0)));
    var s2 := After(s1, Trunk(0), {0}, Start(0, Trunk(0)));
    ss := [s0, s1, s2];
    var none: seq<Ballot> := [];
    assert none + [Ballot(Fork(), true)] == [Ballot(Fork(), true)];
  }

  lemma {:induction false} RunAlongTrunk(n: nat) returns (ss: seq<System>)
    ensures Run(Trunk(0), {0}, ss) && Valid(Trunk(n))
    ensures var last := ss[|ss| - 1];
      && last.fsi == map[0 := VotedAlong(Trunk(n))] && VotedTo(last.ballots, n)
      && BallotsOf(last.ballots, 9) == [Ballot(Fork(), true)]
  {
    hide State, VotedTo, VotedAlong, Transition, Accepted;
    TrunkIsValid(n);
    if n == 0 {
      ss := Beginning();
    } else {
      var before := RunAlongTrunk(n - 1);
      var v := before[|before| - 1].ballots;
      TrunkIsAccepted(v, n - 1, n);
      TrunkIsValid(n - 1);
      var t := VoteStep(v, Trunk(n));
      OneMoreVote(v, n - 1);
      ss := before + [t];
      RunGoesOn(Trunk(0), {0}, before, t);
    }
  }

  /** The assumptions of the safety and the liveness theorem hold together, and not idly: for every n there is
      a run after which block n of the trunk is final in an accepted block, while a faulty key
      has signed a block that conflicts with it. */
  lemma FinalizingRun(n: nat) returns (ss: seq<System>)
    ensures Run(Trunk(0), {0}, ss) && ss != []
    ensures var v := ss[|ss| - 1].ballots;
      && PoliciesTrusted(v, Trunk(0), {0})
      && Accepted(v, Trunk(0), Trunk(n + 2))
      && Ballot(Fork(), true) in BallotsOf(v, 9)
      && HonestCarry(v, Trunk(0), {0}) && 0 in ss[|ss| - 1].fsi
    ensures LibBlock(Trunk(n + 2)) == Trunk(n)
    ensures n > 0 ==> !Anc(Fork(), Trunk(n)) && !Anc(Trunk(n), Fork())
  {
    hide State, Accepted, LibBlock, PoliciesTrusted, HonestCarry, Transition, VotedAlong;
    ss := RunAlongTrunk(n + 1);
    var v := ss[|ss| - 1].ballots;
    TrunkIsAccepted(v, n + 1, n + 2);
    TrunkIsTrusted(v);
    TrunkIsCarried(v);
    TrunkFinal(n + 2);
    if n > 0 { ForkConflicts(n); }
  }

  lemma ForkConflicts(n: nat)
    requires n > 0
    ensures !Anc(Fork(), Trunk(n)) && !Anc(Trunk(n), Fork())
  {
    if Anc(Fork(), Trunk(n)) { var j := TrunkAncestor(Fork(), n); }
  }

  /** On the trunk block 5 replaces the old policy by the new one. */
  lemma PolicyIsReplaced()
    ensures Valid(Trunk(4)) && ActiveAt(Trunk(4)) == OLD
    ensures Valid(Trunk(5)) && ActiveAt(Trunk(5)) == NEW
    ensures PoliciesOf(Of(Trunk(3))) == VotingPolicies(OLD, Some(NEW))
  {
    hide State, Trunk;
    PoliciesAlongTrunk(3);
    PoliciesAlongTrunk(4);
    PoliciesAlongTrunk(5);
  }
}
