/**
  Aggregation while a policy is pending: every vote is counted under both policies, and a
  certificate carries one signature for each.
 */
module JointTally {
  import opened Options
  import opened Policies
  import opened Blocks
  import opened HeaderStates
  import opened Certificates
  import opened Tally
  import opened TallyProofs

  datatype Joint = Joint(active: Votes, pending: Option<Votes>)

  /** The signatures kept from certificates received in blocks, one for each policy. */
  datatype Received = Received(active: Option<QcSig>, pending: Option<QcSig>)

  predicate Shaped(v: VotingPolicies, s: Joint) {
    && |v.active.finalizers| == |s.active.strong| == |s.active.weak|
    && (v.pending.Some? <==> s.pending.Some?)
    && (s.pending.Some? ==> |v.pending.value.finalizers| == |s.pending.value.strong| == |s.pending.value.weak|)
  }

  /** `aggregate_vote`: a duplicate or a bad signature under the active policy ends the
      matter; otherwise the pending policy is tried and, if it knows the key, decides. */
  function Aggregate(v: VotingPolicies, b: Block, s: Joint, m: Message): (r: (Outcome, Joint))
    requires Shaped(v, s)
    ensures Shaped(v, r.1)
  {
    var (ra, ta) := AddTo(v.active, b, s.active, m);
    if (ra != Success && ra != UnknownPublicKey) || v.pending.None? then (ra, s.(active := ta))
    else
      var (rp, tp) := AddTo(v.pending.value, b, s.pending.value, m);
      (if rp != UnknownPublicKey then rp else ra, Joint(ta, Some(tp)))
  }

  /** One policy's half, on the mutable tally. */
  method AddVoteTo(p: Policy, b: Block, q: AggregatingQcSig, m: Message) returns (r: Outcome)
    requires q.Valid() && q.strongVotes.Length == |p.finalizers|
    requires q.quorum == p.threshold && q.maxWeakSum == MaxWeakSum(p)
    modifies q, q.strongVotes, q.weakVotes
    ensures (r, q.View()) == AddTo(p, b, old(q.View()), m) && q.received == old(q.received)
  {
    var i := 0;
    while i < |p.finalizers| && p.finalizers[i].key != m.key
      invariant i <= |p.finalizers|
      invariant forall k :: 0 <= k < i ==> p.finalizers[k].key != m.key
    {
      i := i + 1;
    }
    ghost var found := IndexOf(p.finalizers, m.key);
    assert found == if i < |p.finalizers| then Some(i) else None;
    if i == |p.finalizers| {
      return UnknownPublicKey;
    }
    if q.strongVotes[i] || q.weakVotes[i] {
      return Duplicate;
    }
    if !SignedProperly(m, b) {
      return InvalidSignature;
    }
    var duplicate := q.Add(m.strong, i, m.sig, p.finalizers[i].weight);
    r := Success;
  }

  class AggregatingQc {
    const policies: VotingPolicies
    const activeSig: AggregatingQcSig
    const pendingSig: AggregatingQcSig?

    ghost predicate Fits(p: Policy, q: AggregatingQcSig) {
      && q.Valid() && q.strongVotes.Length == |p.finalizers|
      && q.quorum == p.threshold && q.maxWeakSum == MaxWeakSum(p)
    }

    ghost predicate Valid() {
      && Fits(policies.active, activeSig)
      && (policies.pending.Some? <==> pendingSig != null)
      && (pendingSig != null ==>
            && Fits(policies.pending.value, pendingSig)
            && activeSig != pendingSig
            && {activeSig.strongVotes, activeSig.weakVotes} !! {pendingSig.strongVotes, pendingSig.weakVotes})
    }

    ghost function Repr(): set<object> {
      {activeSig, activeSig.strongVotes, activeSig.weakVotes} +
      if pendingSig == null then {} else {pendingSig, pendingSig.strongVotes, pendingSig.weakVotes}
    }

    ghost function View(): (s: Joint)
      reads Repr()
    {
      Joint(activeSig.View(), if pendingSig == null then None else Some(pendingSig.View()))
    }

    ghost function Store(): (r: Received)
      reads Repr()
    {
      Received(activeSig.received, if pendingSig == null then None else pendingSig.received)
    }

    constructor (v: VotingPolicies)
      ensures Valid() && policies == v
      ensures View() == NoJointVotes(v) && Store() == Received(None, None)
    {
      policies := v;
      var a := new AggregatingQcSig(v.active);
      activeSig := a;
      if v.pending.Some? {
        var p := new AggregatingQcSig(v.pending.value);
        pendingSig := p;
      } else {
        pendingSig := null;
      }
    }

    method AggregateVote(b: Block, m: Message) returns (r: Outcome)
      requires Valid()
      modifies Repr()
      ensures (r, View()) == Aggregate(policies, b, old(View()), m) && Store() == old(Store())
    {
      r := AddVoteTo(policies.active, b, activeSig, m);
      if r != Success && r != UnknownPublicKey {
        return;
      }
      if pendingSig != null {
        var ps := AddVoteTo(policies.pending.value, b, pendingSig, m);
        if ps != UnknownPublicKey {
          r := ps;
        }
      }
    }

    method IsQuorumMet() returns (met: bool)
      requires Valid()
      ensures met == JointQuorumMet(View())
    {
      met := QuorumMet(activeSig.state) && (pendingSig == null || QuorumMet(pendingSig.state));
    }

    /** None unless every policy in force has a signature to offer. */
    method GetBestQc(num: nat) returns (r: Option<Qc>)
      requires Valid()
      ensures r == BestQc(num, View(), Store())
    {
      var a := activeSig.GetBestQc();
      if a.None? {
        return None;
      }
      if pendingSig != null {
        var p := pendingSig.GetBestQc();
        if p.Some? {
          return Some(Qc(num, a.value, p));
        }
        return None;
      }
      return Some(Qc(num, a.value, None));
    }

    /** Each policy keeps its half of the certificate or not on its own. None where the
        assertion on a missing half stops the call, before anything is stored. */
    method SetReceivedQc(q: Qc) returns (better: Option<bool>)
      requires Valid()
      modifies Repr()
      ensures View() == old(View())
      ensures better.None? <==> !Complete(policies, q)
      ensures Store() == if better.None? then old(Store()) else Receive(policies, old(Store()), q)
      ensures better.Some? ==> (better.value <==> Store() != old(Store()))
    {
      if pendingSig != null && q.pending.None? {
        return None;
      }
      var activeBetter := activeSig.SetReceived(q.active);
      var pendingBetter := false;
      if pendingSig != null {
        pendingBetter := pendingSig.SetReceived(q.pending.value);
      }
      better := Some(activeBetter || pendingBetter);
    }
  }

  /** A signature for every policy in force. */
  predicate Complete(v: VotingPolicies, q: Qc) {
    v.pending.Some? ==> q.pending.Some?
  }

  function Receive(v: VotingPolicies, r: Received, q: Qc): (t: Received)
    requires Complete(v, q)
  {
    Received(Keep(r.active, q.active), if v.pending.Some? then Keep(r.pending, q.pending.value) else r.pending)
  }

  function NoJointVotes(v: VotingPolicies): (s: Joint) {
    Joint(NoVotes(|v.active.finalizers|),
      if v.pending.None? then None else Some(NoVotes(|v.pending.value.finalizers|)))
  }

  predicate JointQuorumMet(s: Joint) {
    QuorumMet(s.active.state) && (s.pending.Some? ==> QuorumMet(s.pending.value.state))
  }

  function BestQc(num: nat, s: Joint, received: Received): (r: Option<Qc>) {
    var a := BestQcSig(s.active, received.active);
    if a.None? then None
    else if s.pending.None? then Some(Qc(num, a.value, None))
    else
      var p := BestQcSig(s.pending.value, received.pending);
      if p.None? then None else Some(Qc(num, a.value, p))
  }

  // ---- dual finalizers ----------------------------------------------------------------------

  ghost predicate PoliciesWellFormed(v: VotingPolicies) {
    WellFormed(v.active) && (v.pending.Some? ==> WellFormed(v.pending.value))
  }

  /** A key of both policies has the same bits in both tallies. */
  ghost predicate DualBitsAgree(v: Policy, w: Policy, s: Votes, t: Votes)
    requires |v.finalizers| == |s.strong| == |s.weak|
    requires |w.finalizers| == |t.strong| == |t.weak|
  {
    forall i, j :: 0 <= i < |v.finalizers| && 0 <= j < |w.finalizers| && v.finalizers[i].key == w.finalizers[j].key ==>
      s.strong[i] == t.strong[j] && s.weak[i] == t.weak[j]
  }

  ghost predicate JointOk(v: VotingPolicies, b: Block, s: Joint) {
    && Shaped(v, s)
    && Counted(v.active, b, s.active) && StateOk(v.active, s.active)
    && (s.pending.Some? ==>
          && Counted(v.pending.value, b, s.pending.value) && StateOk(v.pending.value, s.pending.value)
          && DualBitsAgree(v.active, v.pending.value, s.active, s.pending.value))
  }

  lemma AddToKeeps(p: Policy, b: Block, t: Votes, m: Message)
    requires WellFormed(p) && Counted(p, b, t) && StateOk(p, t)
    ensures Counted(p, b, AddTo(p, b, t, m).1) && StateOk(p, AddTo(p, b, t, m).1)
  {
    hide StateOk, Cast;
    var i := IndexOf(p.finalizers, m.key);
    if i.Some? {
      CastKeepsCount(p, b, t, i.value, m.strong);
      CastKeepsState(p, b, t, i.value, m.strong);
    }
  }

  /** Counting one message under both policies keeps dual finalizers in step. */
  lemma DualStep(v: VotingPolicies, b: Block, s: Joint, m: Message)
    requires PoliciesWellFormed(v) && Shaped(v, s) && v.pending.Some?
    requires DualBitsAgree(v.active, v.pending.value, s.active, s.pending.value)
    ensures var t := Aggregate(v, b, s, m).1;
      DualBitsAgree(v.active, v.pending.value, t.active, t.pending.value)
  {
    hide Cast, SignedProperly;
    var t := Aggregate(v, b, s, m).1;
    var fs, gs := v.active.finalizers, v.pending.value.finalizers;
    var ia := IndexOf(fs, m.key);
    forall i, j | 0 <= i < |fs| && 0 <= j < |gs| && fs[i].key == gs[j].key
      ensures t.active.strong[i] == t.pending.value.strong[j] && t.active.weak[i] == t.pending.value.weak[j]
    {
      assert fs[i].key == m.key ==> ia == Some(i);
      AddToBits(v.active, b, s.active, m, i);
      AddToBits(v.pending.value, b, s.pending.value, m, j);
    }
  }

  lemma AggregateKeeps(v: VotingPolicies, b: Block, s: Joint, m: Message)
    requires PoliciesWellFormed(v) && JointOk(v, b, s)
    ensures JointOk(v, b, Aggregate(v, b, s, m).1)
  {
    hide AddTo, Counted, StateOk, DualBitsAgree, WellFormed;
    AddToKeeps(v.active, b, s.active, m);
    if v.pending.Some? {
      AddToKeeps(v.pending.value, b, s.pending.value, m);
      DualStep(v, b, s, m);
    }
  }

  function JointTo(v: VotingPolicies, b: Block, ms: seq<Message>, n: nat): (s: Joint)
    requires n <= |ms|
    ensures Shaped(v, s)
  {
    if n == 0 then NoJointVotes(v) else Aggregate(v, b, JointTo(v, b, ms, n - 1), ms[n - 1]).1
  }

  /** Every reachable pair of tallies is truthful, and no dual finalizer differs in them. */
  lemma {:induction false} ReachableJointOk(v: VotingPolicies, b: Block, ms: seq<Message>, n: nat)
    requires PoliciesWellFormed(v) && n <= |ms|
    ensures JointOk(v, b, JointTo(v, b, ms, n))
  {
    hide Counted, StateOk, Aggregate, WellFormed;
    if n == 0 {
      NoVotesCounted(v.active, b);
      if v.pending.Some? { NoVotesCounted(v.pending.value, b); }
    } else {
      ReachableJointOk(v, b, ms, n - 1);
      AggregateKeeps(v, b, JointTo(v, b, ms, n - 1), ms[n - 1]);
    }
  }

  // ---- the pair is the two tallies ----------------------------------------------------------

  /** Ending early under the active policy loses nothing: the pending tally would not have
      changed either, because dual finalizers are in step. */
  lemma AggregateIsBoth(v: VotingPolicies, b: Block, s: Joint, m: Message)
    requires PoliciesWellFormed(v) && Shaped(v, s)
    requires v.pending.Some? ==> DualBitsAgree(v.active, v.pending.value, s.active, s.pending.value)
    ensures var t := Aggregate(v, b, s, m).1;
      && t.active == AddTo(v.active, b, s.active, m).1
      && (v.pending.Some? ==> t.pending.value == AddTo(v.pending.value, b, s.pending.value, m).1)
  {
    hide Cast, SignedProperly;
    var i := IndexOf(v.active.finalizers, m.key);
    if v.pending.Some? && i.Some? {
      var j := IndexOf(v.pending.value.finalizers, m.key);
      assert j.Some? ==> HasVoted(s.active, i.value) == HasVoted(s.pending.value, j.value);
    }
  }

  /** After any messages the joint tally is each policy's own tally of all of them. */
  lemma {:induction false} JointIsBoth(v: VotingPolicies, b: Block, ms: seq<Message>, n: nat)
    requires PoliciesWellFormed(v) && n <= |ms|
    ensures JointTo(v, b, ms, n).active == TallyTo(v.active, b, ms, n)
    ensures v.pending.Some? ==> JointTo(v, b, ms, n).pending == Some(TallyTo(v.pending.value, b, ms, n))
  {
    hide Aggregate, AddTo, Counted, StateOk, WellFormed, DualBitsAgree;
    if n == 0 {
    } else {
      JointIsBoth(v, b, ms, n - 1);
      ReachableJointOk(v, b, ms, n - 1);
      AggregateIsBoth(v, b, JointTo(v, b, ms, n - 1), ms[n - 1]);
    }
  }

  /** The voters weigh the threshold in every policy in force. */
  predicate VotersSuffice(v: VotingPolicies, b: Block, ms: seq<Message>) {
    && Weight(v.active.finalizers, VoterBits(v.active, b, ms)) >= v.active.threshold
    && (v.pending.Some? ==>
          Weight(v.pending.value.finalizers, VoterBits(v.pending.value, b, ms)) >= v.pending.value.threshold)
  }

  /** The incremental joint tally answers its specification: quorum is met exactly when the
      finalizers with a properly signed vote suffice in both policies. */
  lemma JointQuorumIsVoterWeight(v: VotingPolicies, b: Block, ms: seq<Message>)
    requires PoliciesWellFormed(v)
    ensures JointQuorumMet(JointTo(v, b, ms, |ms|)) <==> VotersSuffice(v, b, ms)
  {
    hide JointTo, TallyTo, VoterBits, WellFormed;
    JointIsBoth(v, b, ms, |ms|);
    QuorumIsVoterWeight(v.active, b, ms);
    if v.pending.Some? { QuorumIsVoterWeight(v.pending.value, b, ms); }
  }

  /** A joint quorum once met stays met. */
  lemma JointQuorumStaysMet(v: VotingPolicies, b: Block, ms: seq<Message>, n: nat, m: nat)
    requires PoliciesWellFormed(v) && n <= m <= |ms| && JointQuorumMet(JointTo(v, b, ms, n))
    ensures JointQuorumMet(JointTo(v, b, ms, m))
  {
    hide JointTo, TallyTo, WellFormed;
    JointIsBoth(v, b, ms, n);
    JointIsBoth(v, b, ms, m);
    QuorumStaysMet(v.active, b, ms, n, m);
    if v.pending.Some? { QuorumStaysMet(v.pending.value, b, ms, n, m); }
  }

  /** The joint answer depends only on which known finalizers have a properly signed vote. */
  lemma JointOrderIsIrrelevant(v: VotingPolicies, b: Block, ms: seq<Message>, ns: seq<Message>)
    requires PoliciesWellFormed(v)
    requires forall k :: Known(v, k) ==> (HasSigned(ms, b, k) <==> HasSigned(ns, b, k))
    ensures JointQuorumMet(JointTo(v, b, ms, |ms|)) <==> JointQuorumMet(JointTo(v, b, ns, |ns|))
  {
    hide JointTo, WellFormed, HasSigned;
    JointQuorumIsVoterWeight(v, b, ms);
    JointQuorumIsVoterWeight(v, b, ns);
    SameVoters(v.active, b, ms, ns);
    if v.pending.Some? { SameVoters(v.pending.value, b, ms, ns); }
  }

  predicate Known(v: VotingPolicies, k: Key) {
    IndexOf(v.active.finalizers, k).Some? || (v.pending.Some? && IndexOf(v.pending.value.finalizers, k).Some?)
  }

  /** In the joint tally too a finalizer's bits are its first properly signed vote. */
  lemma JointBitsAreFirstVotes(v: VotingPolicies, b: Block, ms: seq<Message>, n: nat, j: nat)
    requires PoliciesWellFormed(v) && n <= |ms|
    ensures var s := JointTo(v, b, ms, n);
      && (j < |v.active.finalizers| ==> BitsShow(s.active, j, FirstVote(ms, b, v.active.finalizers[j].key, n)))
      && (v.pending.Some? && j < |v.pending.value.finalizers| ==>
            BitsShow(s.pending.value, j, FirstVote(ms, b, v.pending.value.finalizers[j].key, n)))
  {
    hide JointTo, TallyTo, FirstVote;
    JointIsBoth(v, b, ms, n);
    if j < |v.active.finalizers| { BitsAreFirstVotes(v.active, b, ms, n, j); }
    if v.pending.Some? && j < |v.pending.value.finalizers| { BitsAreFirstVotes(v.pending.value, b, ms, n, j); }
  }

  /** What `aggregate_vote` reports on the next message, in terms of the messages alone: the
      key is in no policy in force, or it has a properly signed vote already, or this message
      is not properly signed, or else the vote is new and counted. */
  lemma OutcomeExactly(v: VotingPolicies, b: Block, ms: seq<Message>, m: Message)
    requires PoliciesWellFormed(v)
    ensures Aggregate(v, b, JointTo(v, b, ms, |ms|), m).0 ==
      if !Known(v, m.key) then UnknownPublicKey
      else if HasSigned(ms, b, m.key) then Duplicate
      else if m.sig != Signature(m.key, b, m.strong) then InvalidSignature
      else Success
  {
    hide JointTo, TallyTo, FirstVote, Cast, WellFormed, HasSigned;
    var s := JointTo(v, b, ms, |ms|);
    VotedMeansSigned(v, b, ms, m.key);
  }

  lemma VotedMeansSigned(v: VotingPolicies, b: Block, ms: seq<Message>, k: Key)
    requires PoliciesWellFormed(v)
    ensures var s := JointTo(v, b, ms, |ms|);
      var i := IndexOf(v.active.finalizers, k);
      && (i.Some? ==> (HasVoted(s.active, i.value) <==> HasSigned(ms, b, k)))
      && (v.pending.Some? ==>
            var j := IndexOf(v.pending.value.finalizers, k);
            j.Some? ==> (HasVoted(s.pending.value, j.value) <==> HasSigned(ms, b, k)))
  {
    hide JointTo, TallyTo, FirstVote, WellFormed, SignedProperly;
    var n := |ms|;
    VotedSomewhere(ms, b, k, n);
    var i := IndexOf(v.active.finalizers, k);
    if i.Some? { JointBitsAreFirstVotes(v, b, ms, n, i.value); }
    if v.pending.Some? {
      var j := IndexOf(v.pending.value.finalizers, k);
      if j.Some? { JointBitsAreFirstVotes(v, b, ms, n, j.value); }
    }
  }

  // ---- certificates from tallies ----------------------------------------------------------------

  lemma ExtractVerifies(p: Policy, b: Block, t: Votes)
    requires Counted(p, b, t) && StateOk(p, t) && QuorumMet(t.state)
    ensures FormatOk(Extract(t), p) && WeightsOk(Extract(t), p) && SignaturesOk(Extract(t), p, b)
  {
    AbsentIsUnsigned(p.finalizers, b, |p.finalizers|);
  }

  /** Somebody in both policies voted weak. */
  predicate DualWeakVoter(v: Policy, w: Policy, s: Votes)
    requires |v.finalizers| == |s.weak|
  {
    exists i :: 0 <= i < |v.finalizers| && s.weak[i] && IndexOf(w.finalizers, v.finalizers[i].key).Some?
  }

  /** Without a pending policy, what a tally with quorum yields always verifies. */
  lemma SinglePolicyCertificateVerifies(v: VotingPolicies, b: Block, s: Joint, num: nat)
    requires v.pending.None? && JointOk(v, b, s) && JointQuorumMet(s)
    ensures var q := BestQc(num, s, Received(None, None));
      q.Some? && BasicOk(q.value, v) && QcSignaturesOk(q.value, v, b)
  {
    ExtractVerifies(v.active, b, s.active);
    hide FormatOk, WeightsOk, SignaturesOk, Counted, StateOk;
  }

  /** With a pending policy the certificate verifies unless the two signatures are of
      different strength and a dual finalizer voted weak: the strong signature then omits
      a vote that the weak one shows. */
  lemma JointCertificateVerifiesExactly(v: VotingPolicies, b: Block, s: Joint, num: nat)
    requires v.pending.Some? && JointOk(v, b, s) && JointQuorumMet(s)
    ensures var q := BestQc(num, s, Received(None, None));
      && q.Some? && QcSignaturesOk(q.value, v, b)
      && (BasicOk(q.value, v) <==>
            ((s.active.state == Strong) == (s.pending.value.state == Strong)
             || !DualWeakVoter(v.active, v.pending.value, s.active)))
  {
    ExtractVerifies(v.active, b, s.active);
    ExtractVerifies(v.pending.value, b, s.pending.value);
    DualExtractAgrees(v, b, s);
    hide FormatOk, WeightsOk, SignaturesOk, Counted, StateOk, DualVotesAgree, DualWeakVoter, DualBitsAgree;
  }

  lemma DualExtractAgrees(v: VotingPolicies, b: Block, s: Joint)
    requires v.pending.Some? && JointOk(v, b, s)
    ensures DualVotesAgree(v.active, v.pending.value, Extract(s.active), Extract(s.pending.value)) <==>
      ((s.active.state == Strong) == (s.pending.value.state == Strong)
       || !DualWeakVoter(v.active, v.pending.value, s.active))
  {
    hide Counted, StateOk;
    var fs, gs := v.active.finalizers, v.pending.value.finalizers;
    forall i | 0 <= i < |fs| && IndexOf(gs, fs[i].key).Some?
      ensures VoteSameAt(Extract(s.active), Extract(s.pending.value), i, IndexOf(gs, fs[i].key).value) <==>
        ((s.active.state == Strong) == (s.pending.value.state == Strong) || !s.active.weak[i])
    {
      var j := IndexOf(gs, fs[i].key).value;
      assert s.active.strong[i] == s.pending.value.strong[j] && s.active.weak[i] == s.pending.value.weak[j];
    }
  }

  // ---- the exception is reachable -----------------------------------------------------------------

  function SampleOld(): (p: Policy) {
    Policy(1, 2, [Authority(0, 1), Authority(1, 1), Authority(2, 1)])
  }

  function SampleNew(): (p: Policy) {
    Policy(2, 2, [Authority(2, 1), Authority(3, 1), Authority(4, 1)])
  }

  lemma SamplePoliciesWellFormed()
    ensures WellFormed(SampleOld()) && MaxWeakSum(SampleOld()) == 1
    ensures WellFormed(SampleNew()) && MaxWeakSum(SampleNew()) == 1
  {
    var fs, gs := SampleOld().finalizers, SampleNew().finalizers;
    assert TotalTo(fs, 1) == 1 && TotalTo(fs, 2) == 2 && TotalTo(fs, 3) == 3;
    assert TotalTo(gs, 1) == 1 && TotalTo(gs, 2) == 2 && TotalTo(gs, 3) == 3;
    MaxWeakSumIsExact(SampleOld());
    MaxWeakSumIsExact(SampleNew());
  }

  function SignedVote(k: Key, b: Block, strong: bool): (m: Message) {
    Message(k, strong, Signature(k, b, strong))
  }

  lemma AddKnown(p: Policy, b: Block, t: Votes, i: nat, strong: bool)
    requires DistinctKeys(p.finalizers) && i < |p.finalizers| == |t.strong| == |t.weak| && !HasVoted(t, i)
    requires t.strongSum + t.weakSum + p.finalizers[i].weight < UINT64_LIMIT
    ensures var (r, u) := AddTo(p, b, t, SignedVote(p.finalizers[i].key, b, strong));
      var w := p.finalizers[i].weight;
      && r == Success
      && u.strong == (if strong then t.strong[i := true] else t.strong)
      && u.weak == (if strong then t.weak else t.weak[i := true])
      && u.strongSum == t.strongSum + (if strong then w else 0)
      && u.weakSum == t.weakSum + (if strong then 0 else w)
      && u.state == (if strong then StateAfterStrong(t.state, t.strongSum + w, t.weakSum, p.threshold)
                     else StateAfterWeak(t.state, t.strongSum, t.weakSum + w, p.threshold, MaxWeakSum(p)))
  {
    hide MaxWeakSum, StateAfterStrong, StateAfterWeak;
    var j := IndexOf(p.finalizers, p.finalizers[i].key);
    assert j == Some(i);
  }

  lemma AddUnknown(p: Policy, b: Block, t: Votes, k: Key, strong: bool)
    requires |p.finalizers| == |t.strong| == |t.weak|
    requires forall i :: 0 <= i < |p.finalizers| ==> p.finalizers[i].key != k
    ensures AddTo(p, b, t, SignedVote(k, b, strong)) == (UnknownPublicKey, t)
  {
    var j := IndexOf(p.finalizers, k);
  }

  function SampleMessages(b: Block): (ms: seq<Message>) {
    [SignedVote(0, b, true), SignedVote(1, b, true), SignedVote(2, b, false), SignedVote(3, b, true)]
  }

  lemma SampleOldTally(b: Block)
    ensures var v := VotingPolicies(SampleOld(), Some(SampleNew()));
      var s := JointTo(v, b, SampleMessages(b), 2);
      && s.active.strong == [true, true, false] && s.active.weak == [false, false, false]
      && s.active.strongSum == 2 && s.active.weakSum == 0 && s.active.state == Strong
      && s.pending == Some(NoVotes(3))
  {
    hide AddTo, MaxWeakSum;
    SamplePoliciesWellFormed();
    var v := VotingPolicies(SampleOld(), Some(SampleNew()));
    var ms := SampleMessages(b);
    var s0 := JointTo(v, b, ms, 0);
    AddKnown(SampleOld(), b, s0.active, 0, true);
    AddUnknown(SampleNew(), b, s0.pending.value, 0, true);
    var s1 := JointTo(v, b, ms, 1);
    assert s1.active.strong == [true, false, false];
    AddKnown(SampleOld(), b, s1.active, 1, true);
    AddUnknown(SampleNew(), b, s1.pending.value, 1, true);
  }

  /** Finalizers 0 and 1 vote strong, the dual finalizer 2 votes weak, finalizer 3 strong:
      both policies reach quorum, yet the certificate taken from the tally is rejected. */
  lemma MixedStrengthsCanFail(b: Block) returns (s: Joint)
    ensures var v := VotingPolicies(SampleOld(), Some(SampleNew()));
      && PoliciesWellFormed(v)
      && s == JointTo(v, b, SampleMessages(b), 4)
      && JointQuorumMet(s)
      && var q := BestQc(0, s, Received(None, None)); q.Some? && !BasicOk(q.value, v)
  {
    hide AddTo, MaxWeakSum, BasicOk, JointOk, BestQc, WellFormed;
    SamplePoliciesWellFormed();
    SampleOldTally(b);
    var v := VotingPolicies(SampleOld(), Some(SampleNew()));
    var ms := SampleMessages(b);
    var s2 := JointTo(v, b, ms, 2);
    AddKnown(SampleOld(), b, s2.active, 2, false);
    AddKnown(SampleNew(), b, s2.pending.value, 0, false);
    var s3 := JointTo(v, b, ms, 3);
    assert s3.active.weak[2] && s3.active.state == Strong;
    AddUnknown(SampleOld(), b, s3.active, 3, true);
    AddKnown(SampleNew(), b, s3.pending.value, 1, true);
    s := JointTo(v, b, ms, 4);
    assert s.pending.value.state == WeakAchieved;
    ReachableJointOk(v, b, ms, 4);
    JointCertificateVerifiesExactly(v, b, s, 0);
    assert IndexOf(SampleNew().finalizers, 2).Some?;
    assert DualWeakVoter(v.active, v.pending.value, s.active);
  }
}
