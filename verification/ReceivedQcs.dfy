/**
  Certificates received in blocks. Each policy keeps its half of a certificate on its own, so
  what is stored, and what is offered to the next block, may mix several certificates and the
  own tally.
 */
module ReceivedQcs {
  import opened Options
  import opened Policies
  import opened Blocks
  import opened HeaderStates
  import opened Certificates
  import opened Tally
  import opened TallyProofs
  import opened JointTally

  // ---- what is stored -------------------------------------------------------------------------

  ghost predicate Verified(v: VotingPolicies, b: Block, q: Qc) {
    BasicOk(q, v) && QcSignaturesOk(q, v, b)
  }

  ghost predicate AllVerified(v: VotingPolicies, b: Block, qs: seq<Qc>) {
    forall k :: 0 <= k < |qs| ==> Verified(v, b, qs[k])
  }

  /** The store after the first `n` certificates. */
  function StoreTo(v: VotingPolicies, qs: seq<Qc>, n: nat): (r: Received)
    requires n <= |qs| && forall k :: 0 <= k < |qs| ==> Complete(v, qs[k])
  {
    if n == 0 then Received(None, None) else Receive(v, StoreTo(v, qs, n - 1), qs[n - 1])
  }

  function ActiveHalves(qs: seq<Qc>): (ss: seq<QcSig>) {
    seq(|qs|, k requires 0 <= k < |qs| => qs[k].active)
  }

  function PendingHalves(qs: seq<Qc>): (ss: seq<QcSig>)
    requires forall k :: 0 <= k < |qs| ==> qs[k].pending.Some?
  {
    seq(|qs|, k requires 0 <= k < |qs| => qs[k].pending.value)
  }

  /** The first strong one among the first `n`, or the very first if none is strong. */
  function ChosenTo(ss: seq<QcSig>, n: nat): (k: nat)
    requires 0 < n <= |ss|
    ensures k < n && forall i :: 0 <= i < k ==> !SigIsStrong(ss[i])
    ensures !SigIsStrong(ss[k]) ==> k == 0 && forall i :: 0 <= i < n ==> !SigIsStrong(ss[i])
  {
    if SigIsStrong(ss[n - 1]) && (n == 1 || !SigIsStrong(ss[ChosenTo(ss, n - 1)])) then n - 1
    else if n == 1 then 0
    else ChosenTo(ss, n - 1)
  }

  function Chosen(ss: seq<QcSig>): (k: nat)
    requires ss != []
    ensures k < |ss| && forall i :: 0 <= i < k ==> !SigIsStrong(ss[i])
    ensures !SigIsStrong(ss[k]) ==> k == 0 && forall i :: 0 <= i < |ss| ==> !SigIsStrong(ss[i])
  {
    ChosenTo(ss, |ss|)
  }

  lemma {:induction false} StoredHalvesTo(v: VotingPolicies, qs: seq<Qc>, n: nat)
    requires v.pending.Some? && 0 < n <= |qs| && forall k :: 0 <= k < |qs| ==> qs[k].pending.Some?
    ensures StoreTo(v, qs, n).active == Some(qs[ChosenTo(ActiveHalves(qs), n)].active)
    ensures StoreTo(v, qs, n).pending == qs[ChosenTo(PendingHalves(qs), n)].pending
  {
    if n == 1 {
      assert StoreTo(v, qs, 0) == Received(None, None);
    } else {
      StoredHalvesTo(v, qs, n - 1);
    }
  }

  /** The halves stored come from the first certificate strong in their policy, or from the
      first of all: two different certificates where only one of them is strong in one. */
  lemma StoredHalves(v: VotingPolicies, qs: seq<Qc>)
    requires v.pending.Some? && qs != [] && forall k :: 0 <= k < |qs| ==> qs[k].pending.Some?
    ensures var i, k := Chosen(ActiveHalves(qs)), Chosen(PendingHalves(qs));
      StoreTo(v, qs, |qs|) == Received(Some(qs[i].active), qs[k].pending)
  {
    StoredHalvesTo(v, qs, |qs|);
  }

  // ---- what is offered ------------------------------------------------------------------------

  /** The own strong signature replaces a received weak one. */
  predicate OwnWins(t: Votes, received: QcSig) {
    t.state == Strong && !SigIsStrong(received)
  }

  /** The finalizer at place `j` of the active policy votes in the pending one too. */
  predicate Dual(v: VotingPolicies, j: nat) {
    v.pending.Some? && j < |v.active.finalizers| && IndexOf(v.pending.value.finalizers, v.active.finalizers[j].key).Some?
  }

  /** The tally's strong votes and a certificate disagree about somebody in both policies. */
  ghost predicate TallyDiffers(v: VotingPolicies, s: Joint, q: Qc)
    requires Shaped(v, s)
  {
    exists j :: 0 <= j < |v.active.finalizers| && Dual(v, j) &&
      (s.active.strong[j] != Bit(q.active.strongVotes, j) || Bit(q.active.weakVotes, j))
  }

  /** Two certificates show the vote of somebody in both policies differently. */
  ghost predicate CertificatesDiffer(v: VotingPolicies, q: Qc, r: Qc) {
    exists j :: 0 <= j < |v.active.finalizers| && Dual(v, j) && !VoteSameAt(q.active, r.active, j, j)
  }

  /** With nothing received: tallies of different strength and a weak vote in both. Otherwise
      the halves have different sources, and these disagree about a finalizer of both policies. */
  ghost predicate Clash(v: VotingPolicies, s: Joint, qs: seq<Qc>)
    requires v.pending.Some? && Shaped(v, s) && forall k :: 0 <= k < |qs| ==> qs[k].pending.Some?
  {
    if qs == [] then
      (s.active.state == Strong) != (s.pending.value.state == Strong) && DualWeakVoter(v.active, v.pending.value, s.active)
    else
      var q, r := qs[Chosen(ActiveHalves(qs))], qs[Chosen(PendingHalves(qs))];
      match (OwnWins(s.active, q.active), OwnWins(s.pending.value, r.pending.value))
      case (true, true) => false
      case (true, false) => TallyDiffers(v, s, r)
      case (false, true) => TallyDiffers(v, s, q)
      case (false, false) => CertificatesDiffer(v, q, r)
  }

  // Where a finalizer of both policies stands in the pending one.
  function Twin(v: VotingPolicies, j: nat): (i: nat)
    requires Dual(v, j)
    ensures i < |v.pending.value.finalizers| && v.pending.value.finalizers[i].key == v.active.finalizers[j].key
  {
    IndexOf(v.pending.value.finalizers, v.active.finalizers[j].key).value
  }

  lemma AgreeAtTwins(v: VotingPolicies, a: QcSig, p: QcSig)
    requires v.pending.Some?
    ensures DualVotesAgree(v.active, v.pending.value, a, p) <==>
      forall j :: 0 <= j < |v.active.finalizers| && Dual(v, j) ==> VoteSameAt(a, p, j, Twin(v, j))
  {
    forall j | 0 <= j < |v.active.finalizers| && IndexOf(v.pending.value.finalizers, v.active.finalizers[j].key).Some?
      ensures Dual(v, j) && Twin(v, j) == IndexOf(v.pending.value.finalizers, v.active.finalizers[j].key).value
    {
      assert Dual(v, j);
    }
  }

  /** The active half of one verified certificate with the pending half of another. */
  lemma MixOfTwo(v: VotingPolicies, q: Qc, r: Qc)
    requires v.pending.Some? && q.pending.Some? && BasicOk(r, v)
    ensures DualVotesAgree(v.active, v.pending.value, q.active, r.pending.value) <==> !CertificatesDiffer(v, q, r)
  {
    hide FormatOk, WeightsOk, DualVotesAgree, Dual, Twin;
    AgreeAtTwins(v, q.active, r.pending.value);
    AgreeAtTwins(v, r.active, r.pending.value);
  }

  /** The own strong active half with the pending half of a verified certificate. */
  lemma OwnActiveMix(v: VotingPolicies, s: Joint, r: Qc)
    requires v.pending.Some? && Shaped(v, s) && s.active.state == Strong && BasicOk(r, v)
    ensures DualVotesAgree(v.active, v.pending.value, Extract(s.active), r.pending.value) <==> !TallyDiffers(v, s, r)
  {
    hide FormatOk, WeightsOk, DualVotesAgree, Twin;
    AgreeAtTwins(v, Extract(s.active), r.pending.value);
    AgreeAtTwins(v, r.active, r.pending.value);
  }

  /** The active half of a verified certificate with the own strong pending half. */
  lemma OwnPendingMix(v: VotingPolicies, s: Joint, q: Qc)
    requires v.pending.Some? && Shaped(v, s) && s.pending.value.state == Strong
    requires DualBitsAgree(v.active, v.pending.value, s.active, s.pending.value)
    ensures DualVotesAgree(v.active, v.pending.value, q.active, Extract(s.pending.value)) <==> !TallyDiffers(v, s, q)
  {
    hide DualVotesAgree, Twin;
    AgreeAtTwins(v, q.active, Extract(s.pending.value));
  }

  /** With a pending policy, after any votes and any verified certificates: a certificate is
      offered unless nothing was received and a quorum is missing, and it verifies if and only
      if its sources do not clash. */
  lemma ReceivedCertificateVerifiesExactly(v: VotingPolicies, b: Block, ms: seq<Message>, qs: seq<Qc>, num: nat)
    requires PoliciesWellFormed(v) && v.pending.Some? && AllVerified(v, b, qs)
    ensures var s := JointTo(v, b, ms, |ms|);
      var q := BestQc(num, s, StoreTo(v, qs, |qs|));
      && (q.Some? <==> qs != [] || JointQuorumMet(s))
      && (q.Some? ==> QcSignaturesOk(q.value, v, b) && (BasicOk(q.value, v) <==> !Clash(v, s, qs)))
  {
    hide FormatOk, WeightsOk, SignaturesOk, DualVotesAgree, JointTo, WellFormed;
    var s := JointTo(v, b, ms, |ms|);
    ReachableJointOk(v, b, ms, |ms|);
    if qs == [] {
      if JointQuorumMet(s) { JointCertificateVerifiesExactly(v, b, s, num); }
    } else {
      StoredHalves(v, qs);
      OfferedVerifiesExactly(v, b, s, qs[Chosen(ActiveHalves(qs))], qs[Chosen(PendingHalves(qs))], num);
    }
  }

  lemma OfferedVerifiesExactly(v: VotingPolicies, b: Block, s: Joint, q: Qc, r: Qc, num: nat)
    requires v.pending.Some? && JointOk(v, b, s) && Verified(v, b, q) && Verified(v, b, r)
    ensures var o := BestQc(num, s, Received(Some(q.active), r.pending));
      && o.Some? && QcSignaturesOk(o.value, v, b)
      && (BasicOk(o.value, v) <==>
            match (OwnWins(s.active, q.active), OwnWins(s.pending.value, r.pending.value))
            case (true, true) => true
            case (true, false) => !TallyDiffers(v, s, r)
            case (false, true) => !TallyDiffers(v, s, q)
            case (false, false) => !CertificatesDiffer(v, q, r))
  {
    hide FormatOk, WeightsOk, SignaturesOk, DualVotesAgree, Counted, StateOk, DualBitsAgree;
    if OwnWins(s.active, q.active) { ExtractVerifies(v.active, b, s.active); }
    if OwnWins(s.pending.value, r.pending.value) { ExtractVerifies(v.pending.value, b, s.pending.value); }
    match (OwnWins(s.active, q.active), OwnWins(s.pending.value, r.pending.value)) {
      case (true, true) => DualExtractAgrees(v, b, s);
      case (true, false) => OwnActiveMix(v, s, r);
      case (false, true) => OwnPendingMix(v, s, q);
      case (false, false) => MixOfTwo(v, q, r);
    }
  }

  /** Without a pending policy what is offered always verifies. */
  lemma {:induction false} ReceivedAloneVerifies(v: VotingPolicies, b: Block, ms: seq<Message>, qs: seq<Qc>, num: nat)
    requires PoliciesWellFormed(v) && v.pending.None? && AllVerified(v, b, qs)
    ensures var s := JointTo(v, b, ms, |ms|);
      var q := BestQc(num, s, StoreTo(v, qs, |qs|));
      && (q.Some? <==> qs != [] || JointQuorumMet(s))
      && (q.Some? ==> Verified(v, b, q.value))
  {
    hide FormatOk, WeightsOk, SignaturesOk, JointTo, WellFormed, Counted, StateOk;
    var s := JointTo(v, b, ms, |ms|);
    ReachableJointOk(v, b, ms, |ms|);
    if QuorumMet(s.active.state) { ExtractVerifies(v.active, b, s.active); }
    StoredAlone(v, b, qs, |qs|);
  }

  lemma {:induction false} StoredAlone(v: VotingPolicies, b: Block, qs: seq<Qc>, n: nat)
    requires v.pending.None? && AllVerified(v, b, qs) && n <= |qs|
    ensures var r := StoreTo(v, qs, n);
      && r.pending.None? && (r.active.Some? <==> n > 0)
      && (r.active.Some? ==> Verified(v, b, Qc(0, r.active.value, None)))
  {
    hide FormatOk, WeightsOk, SignaturesOk;
    if n == 0 {
    } else {
      StoredAlone(v, b, qs, n - 1);
      assert Verified(v, b, qs[n - 1]);
    }
  }

  // ---- both mixtures are reachable ------------------------------------------------------------

  function SamplePolicies(): (v: VotingPolicies) {
    VotingPolicies(
      Policy(1, 3, [Authority(0, 1), Authority(1, 1), Authority(2, 1), Authority(3, 1), Authority(9, 1)]),
      Some(Policy(2, 2, [Authority(9, 1), Authority(11, 1), Authority(12, 1)])))
  }

  function Certify(p: Policy, b: Block, strong: Bits, weak: Option<Bits>): (s: QcSig) {
    QcSig(Some(strong), weak, Signed(p, Some(strong), b, true) + Signed(p, weak, b, false))
  }

  /** Weak in the active policy, where 0 votes weak and 1 and 9 strong. */
  function WeakQc(b: Block): (q: Qc) {
    var v := SamplePolicies();
    Qc(Num(b), Certify(v.active, b, [false, true, false, false, true], Some([true, false, false, false, false])),
       Some(Certify(v.pending.value, b, [true, true, false], None)))
  }

  /** Strong, by 1, 2, 3 and 11, 12: finalizer 9 of both policies is not needed. */
  function StrongQc(b: Block): (q: Qc) {
    var v := SamplePolicies();
    Qc(Num(b), Certify(v.active, b, [false, true, true, true, false], None),
       Some(Certify(v.pending.value, b, [false, true, true], None)))
  }

  lemma WeighFive(fs: seq<Authority>, bits: Bits)
    requires |fs| == |bits| == 5
    ensures Weight(fs, bits) == WeightTo(fs, bits, 3) + (if bits[3] then fs[3].weight else 0) + (if bits[4] then fs[4].weight else 0)
  {
    assert WeightTo(fs, bits, 4) == WeightTo(fs, bits, 3) + if bits[3] then fs[3].weight else 0;
  }

  lemma WeighThree(fs: seq<Authority>, bits: Bits)
    requires |fs| >= 3 && |fs| == |bits|
    ensures WeightTo(fs, bits, 3) ==
      (if bits[0] then fs[0].weight else 0) + (if bits[1] then fs[1].weight else 0) + (if bits[2] then fs[2].weight else 0)
  {
    assert WeightTo(fs, bits, 1) == WeightTo(fs, bits, 0) + if bits[0] then fs[0].weight else 0;
    assert WeightTo(fs, bits, 2) == WeightTo(fs, bits, 1) + if bits[1] then fs[1].weight else 0;
  }

  lemma SamplePoliciesWellFormed()
    ensures PoliciesWellFormed(SamplePolicies())
  {
    var fs, gs := SamplePolicies().active.finalizers, SamplePolicies().pending.value.finalizers;
    assert TotalTo(fs, 1) == 1 && TotalTo(fs, 2) == 2 && TotalTo(fs, 3) == 3;
    assert TotalTo(fs, 4) == 4 && TotalTo(fs, 5) == 5;
    assert TotalTo(gs, 1) == 1 && TotalTo(gs, 2) == 2 && TotalTo(gs, 3) == 3;
  }

  lemma OnlyNineIsDual(j: nat)
    requires j < 5
    ensures Dual(SamplePolicies(), j) <==> j == 4
    ensures Dual(SamplePolicies(), 4) && Twin(SamplePolicies(), 4) == 0
  {
    var v := SamplePolicies();
    var at := IndexOf(v.pending.value.finalizers, v.active.finalizers[j].key);
    var nine := IndexOf(v.pending.value.finalizers, 9);
    assert v.pending.value.finalizers[0].key == 9;
    assert at.Some? ==> v.active.finalizers[j].key in {9, 11, 12};
  }

  lemma SampleVerifies(b: Block, q: Qc)
    requires q == WeakQc(b) || q == StrongQc(b)
    ensures Verified(SamplePolicies(), b, q)
  {
    hide SignedTo, IndexOf, WeightTo, Dual;
    var v := SamplePolicies();
    var fs, gs := v.active.finalizers, v.pending.value.finalizers;
    WeighThree(fs, q.active.strongVotes.value);
    WeighFive(fs, q.active.strongVotes.value);
    WeighThree(gs, q.pending.value.strongVotes.value);
    if q.active.weakVotes.Some? {
      WeighThree(fs, q.active.weakVotes.value);
      WeighFive(fs, q.active.weakVotes.value);
    }
    forall j | 0 <= j < 5 && Dual(v, j)
      ensures VoteSameAt(q.active, q.pending.value, j, Twin(v, j))
    {
      OnlyNineIsDual(j);
    }
    AgreeAtTwins(v, q.active, q.pending.value);
  }

  lemma SampleChoices(b: Block)
    ensures var qs := [WeakQc(b), StrongQc(b)];
      Chosen(ActiveHalves(qs)) == 1 && Chosen(PendingHalves(qs)) == 0
    ensures Chosen(ActiveHalves([WeakQc(b)])) == 0 == Chosen(PendingHalves([WeakQc(b)]))
  {
    hide ChosenTo, Signed;
    var qs := [WeakQc(b), StrongQc(b)];
    var ss, ps := ActiveHalves(qs), PendingHalves(qs);
    assert !SigIsStrong(ss[0]) && SigIsStrong(ss[1]) && SigIsStrong(ps[0]);
  }

  /** Two verified certificates, in this order and without own votes, leave the active half of
      the second with the pending half of the first: the offered certificate is rejected. */
  lemma TwoCertificatesCanClash(b: Block)
    ensures var v, qs := SamplePolicies(), [WeakQc(b), StrongQc(b)];
      && PoliciesWellFormed(v) && AllVerified(v, b, qs)
      && var q := BestQc(Num(b), NoJointVotes(v), StoreTo(v, qs, 2));
         q.Some? && !BasicOk(q.value, v)
  {
    hide BasicOk, QcSignaturesOk, Signed, WellFormed, BestQc, ChosenTo, StoreTo, Dual;
    var v, qs := SamplePolicies(), [WeakQc(b), StrongQc(b)];
    SamplePoliciesWellFormed();
    SampleVerifies(b, qs[0]);
    SampleVerifies(b, qs[1]);
    SampleChoices(b);
    OnlyNineIsDual(4);
    assert !VoteSameAt(qs[1].active, qs[0].active, 4, 4);
    assert CertificatesDiffer(v, qs[1], qs[0]);
    ReceivedCertificateVerifiesExactly(v, b, [], qs, Num(b));
  }

  function SampleVotes(b: Block): (ms: seq<Message>) {
    [SignedVote(1, b, true), SignedVote(2, b, true), SignedVote(3, b, true)]
  }

  lemma SampleTally(b: Block)
    ensures var v := SamplePolicies();
      var s := JointTo(v, b, SampleVotes(b), 3);
      s.active.strong == [false, true, true, true, false] && s.active.state == Strong && s.pending == Some(NoVotes(3))
  {
    hide AddTo, MaxWeakSum;
    var v, ms := SamplePolicies(), SampleVotes(b);
    var s0 := JointTo(v, b, ms, 0);
    AddKnown(v.active, b, s0.active, 1, true);
    AddUnknown(v.pending.value, b, NoVotes(3), 1, true);
    var s1 := JointTo(v, b, ms, 1);
    AddKnown(v.active, b, s1.active, 2, true);
    AddUnknown(v.pending.value, b, NoVotes(3), 2, true);
    var s2 := JointTo(v, b, ms, 2);
    AddKnown(v.active, b, s2.active, 3, true);
    AddUnknown(v.pending.value, b, NoVotes(3), 3, true);
  }

  /** Own strong votes of 1, 2 and 3 replace the active half of the received weak certificate,
      whose pending half shows finalizer 9: the offered certificate is rejected. */
  lemma OwnAndReceivedCanClash(b: Block)
    ensures var v, qs := SamplePolicies(), [WeakQc(b)];
      && PoliciesWellFormed(v) && AllVerified(v, b, qs)
      && var q := BestQc(Num(b), JointTo(v, b, SampleVotes(b), 3), StoreTo(v, qs, 1));
         q.Some? && !BasicOk(q.value, v)
  {
    hide BasicOk, QcSignaturesOk, Signed, WellFormed, BestQc, ChosenTo, StoreTo, Dual, JointTo;
    var v, qs := SamplePolicies(), [WeakQc(b)];
    var s := JointTo(v, b, SampleVotes(b), 3);
    SamplePoliciesWellFormed();
    SampleVerifies(b, qs[0]);
    SampleChoices(b);
    SampleTally(b);
    OnlyNineIsDual(4);
    assert !s.active.strong[4] && Bit(qs[0].active.strongVotes, 4);
    assert TallyDiffers(v, s, qs[0]);
    ReceivedCertificateVerifiesExactly(v, b, SampleVotes(b), qs, Num(b));
  }
}
