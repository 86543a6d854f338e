/**
  What a tally means: its sums and signatures are those of its bits, its state answers the
  quorum question exactly, and the certificates taken from it verify.
 */
module TallyProofs {
  import opened Options
  import opened Policies
  import opened Blocks
  import opened Certificates
  import opened Tally

  /** Sums and signatures are accounted for by the bits, and nobody votes twice. */
  ghost predicate Counted(p: Policy, b: Block, t: Votes) {
    && |t.strong| == |t.weak| == |p.finalizers|
    && (forall i :: 0 <= i < |t.strong| ==> !(t.strong[i] && t.weak[i]))
    && t.strongSum == Weight(p.finalizers, t.strong)
    && t.weakSum == Weight(p.finalizers, t.weak)
    && t.strongSig == Signed(p, Some(t.strong), b, true)
    && t.weakSig == Signed(p, Some(t.weak), b, false)
  }

  /** What the state says about the sums. */
  predicate StateOk(p: Policy, t: Votes) {
    && (QuorumMet(t.state) <==> t.strongSum + t.weakSum >= p.threshold)
    && (t.state == Strong ==> t.strongSum >= p.threshold)
    && (t.strongSum >= p.threshold ==> t.state == Strong || t.state == WeakFinal)
    && (t.state == WeakFinal ==> t.weakSum >= MaxWeakSum(p))
    && (t.state == Restricted ==> t.weakSum > MaxWeakSum(p))
  }

  /** The documented meaning of Restricted and WeakFinal: the votes still missing cannot
      make a strong quorum any more. */
  predicate StrongRuledOut(p: Policy, t: Votes) {
    t.state == Restricted || t.state == WeakFinal ==> Total(p) - t.weakSum < p.threshold
  }

  function Cast(p: Policy, b: Block, t: Votes, i: nat, strong: bool): (u: Votes)
    requires i < |p.finalizers| == |t.strong| == |t.weak|
  {
    AddVote(t, p.threshold, MaxWeakSum(p), i, p.finalizers[i].weight, strong, Signature(p.finalizers[i].key, b, strong))
  }

  // ---- accounting ---------------------------------------------------------------------------

  lemma {:induction false} SetBitTo(fs: seq<Authority>, bits: Bits, b: Block, strong: bool, i: nat, n: nat)
    requires n <= |fs| == |bits| && i < |bits| && !bits[i]
    ensures WeightTo(fs, bits[i := true], n) == WeightTo(fs, bits, n) + if i < n then fs[i].weight else 0
    ensures SignedTo(fs, Some(bits[i := true]), b, strong, n) ==
      SignedTo(fs, Some(bits), b, strong, n) + if i < n then multiset{Signature(fs[i].key, b, strong)} else multiset{}
  {
    if n == 0 {
    } else {
      SetBitTo(fs, bits, b, strong, i, n - 1);
    }
  }

  lemma {:induction false} ClearBitsTo(fs: seq<Authority>, bits: Bits, b: Block, strong: bool, n: nat)
    requires n <= |fs| == |bits| && forall i :: 0 <= i < |bits| ==> !bits[i]
    ensures WeightTo(fs, bits, n) == 0
    ensures SignedTo(fs, Some(bits), b, strong, n) == multiset{}
  {
    if n == 0 {
    } else {
      ClearBitsTo(fs, bits, b, strong, n - 1);
    }
  }

  lemma SumsBounded(p: Policy, b: Block, t: Votes)
    requires Counted(p, b, t)
    ensures t.strongSum + t.weakSum <= Total(p)
  {
    DisjointWeightsTo(p.finalizers, Some(t.strong), Some(t.weak), |p.finalizers|);
  }

  lemma NoVotesCounted(p: Policy, b: Block)
    requires WellFormed(p)
    ensures Counted(p, b, NoVotes(|p.finalizers|)) && StateOk(p, NoVotes(|p.finalizers|))
    ensures StrongRuledOut(p, NoVotes(|p.finalizers|))
  {
    var t := NoVotes(|p.finalizers|);
    ClearBitsTo(p.finalizers, t.strong, b, true, |p.finalizers|);
    ClearBitsTo(p.finalizers, t.weak, b, false, |p.finalizers|);
    assert t.strongSum + t.weakSum < p.threshold;
  }

  lemma CastKeepsCount(p: Policy, b: Block, t: Votes, i: nat, strong: bool)
    requires WellFormed(p) && Counted(p, b, t) && i < |p.finalizers|
    ensures Counted(p, b, Cast(p, b, t, i, strong))
    ensures var u := Cast(p, b, t, i, strong);
      if HasVoted(t, i) then u == t
      else
        && u.strongSum == t.strongSum + (if strong then p.finalizers[i].weight else 0)
        && u.weakSum == t.weakSum + (if strong then 0 else p.finalizers[i].weight)
        && u.strong == (if strong then t.strong[i := true] else t.strong)
        && u.weak == (if strong then t.weak else t.weak[i := true])
        && u.strongSum + u.weakSum <= Total(p)
  {
    hide StateAfterStrong, StateAfterWeak, MaxWeakSum, WeightTo, TotalTo, SignedTo;
    if !HasVoted(t, i) {
      var n := |p.finalizers|;
      var u := Cast(p, b, t, i, strong);
      if strong {
        SetBitTo(p.finalizers, t.strong, b, true, i, n);
        DisjointWeightsTo(p.finalizers, Some(t.strong[i := true]), Some(t.weak), n);
      } else {
        SetBitTo(p.finalizers, t.weak, b, false, i, n);
        DisjointWeightsTo(p.finalizers, Some(t.strong), Some(t.weak[i := true]), n);
      }
    }
  }

  // ---- the state machine --------------------------------------------------------------------

  /** Every vote keeps the state truthful: the quorum answer is exactly whether the accepted
      voters weigh enough, and once met it stays met. */
  lemma CastKeepsState(p: Policy, b: Block, t: Votes, i: nat, strong: bool)
    requires WellFormed(p) && Counted(p, b, t) && StateOk(p, t) && i < |p.finalizers|
    ensures StateOk(p, Cast(p, b, t, i, strong))
    ensures QuorumMet(t.state) ==> QuorumMet(Cast(p, b, t, i, strong).state)
  {
    hide MaxWeakSum, Counted, WeightTo, TotalTo;
    CastKeepsCount(p, b, t, i, strong);
    SumsBounded(p, b, t);
  }

  /** The one vote that breaks the documented meaning of WeakFinal: a weak vote, after the
      quorum was met, that brings the weak sum exactly to the limit. */
  predicate LandsOnLimit(p: Policy, t: Votes, i: nat, strong: bool)
    requires i < |p.finalizers| == |t.strong| == |t.weak|
  {
    && !HasVoted(t, i) && !strong && t.state == WeakAchieved
    && t.weakSum + p.finalizers[i].weight == MaxWeakSum(p) == Total(p) - p.threshold
  }

  /** A vote that makes the state WeakFinal either puts a strong quorum out of reach or
      lands on the limit; landing on it always makes the state WeakFinal. */
  lemma WeakFinalIsEntered(p: Policy, b: Block, t: Votes, i: nat, strong: bool)
    requires WellFormed(p) && Counted(p, b, t) && StateOk(p, t) && i < |p.finalizers|
    ensures var u := Cast(p, b, t, i, strong);
      && t.weakSum <= u.weakSum
      && (t.state != WeakFinal && u.state == WeakFinal ==>
            u.weakSum > Total(p) - p.threshold || LandsOnLimit(p, t, i, strong))
      && (t.state == WeakFinal || LandsOnLimit(p, t, i, strong) ==> u.state == WeakFinal)
  {
    hide MaxWeakSum, Counted, WeightTo, TotalTo;
    CastKeepsCount(p, b, t, i, strong);
    SumsBounded(p, b, t);
    MaxWeakSumIsExact(p);
  }

  // ---- vote messages ------------------------------------------------------------------------

  datatype Message = Message(key: Key, strong: bool, sig: Signature)

  datatype Outcome = Success | Duplicate | UnknownPublicKey | InvalidSignature

  predicate SignedProperly(m: Message, b: Block) {
    m.sig == Signature(m.key, b, m.strong)
  }

  /** One policy's half of `aggregate_vote`: unknown keys and duplicates are settled before
      the signature is looked at. */
  function AddTo(p: Policy, b: Block, t: Votes, m: Message): (r: (Outcome, Votes))
    requires |p.finalizers| == |t.strong| == |t.weak|
    ensures |p.finalizers| == |r.1.strong| == |r.1.weak|
  {
    var i := IndexOf(p.finalizers, m.key);
    if i.None? then (UnknownPublicKey, t)
    else if HasVoted(t, i.value) then (Duplicate, t)
    else if !SignedProperly(m, b) then (InvalidSignature, t)
    else (Success, Cast(p, b, t, i.value, m.strong))
  }

  function TallyTo(p: Policy, b: Block, ms: seq<Message>, n: nat): (t: Votes)
    requires n <= |ms|
    ensures |p.finalizers| == |t.strong| == |t.weak|
  {
    if n == 0 then NoVotes(|p.finalizers|) else AddTo(p, b, TallyTo(p, b, ms, n - 1), ms[n - 1]).1
  }

  lemma {:induction false} ReachableOk(p: Policy, b: Block, ms: seq<Message>, n: nat)
    requires WellFormed(p) && n <= |ms|
    ensures Counted(p, b, TallyTo(p, b, ms, n)) && StateOk(p, TallyTo(p, b, ms, n))
  {
    hide Counted, StateOk, Cast, NoVotes;
    if n == 0 {
      NoVotesCounted(p, b);
    } else {
      ReachableOk(p, b, ms, n - 1);
      var i := IndexOf(p.finalizers, ms[n - 1].key);
      if i.Some? {
        CastKeepsCount(p, b, TallyTo(p, b, ms, n - 1), i.value, ms[n - 1].strong);
        CastKeepsState(p, b, TallyTo(p, b, ms, n - 1), i.value, ms[n - 1].strong);
      }
    }
  }

  // ---- which state it is -------------------------------------------------------------------

  // What each state says of the sums.
  predicate SumsFit(state: AggState, strongSum: nat, weakSum: nat, quorum: nat, limit: nat) {
    match state
    case Unrestricted => strongSum + weakSum < quorum && weakSum <= limit
    case Restricted => strongSum + weakSum < quorum && weakSum > limit
    case WeakAchieved => strongSum + weakSum >= quorum && weakSum <= limit && strongSum < quorum
    case WeakFinal => strongSum + weakSum >= quorum && weakSum >= limit
    case Strong => strongSum >= quorum
  }

  ghost predicate StateFits(p: Policy, t: Votes) {
    SumsFit(t.state, t.strongSum, t.weakSum, p.threshold, MaxWeakSum(p))
  }

  lemma StrongFits(state: AggState, strongSum: nat, weakSum: nat, w: nat, quorum: nat, limit: nat)
    requires SumsFit(state, strongSum, weakSum, quorum, limit) && strongSum + w + weakSum < UINT64_LIMIT
    ensures SumsFit(StateAfterStrong(state, strongSum + w, weakSum, quorum), strongSum + w, weakSum, quorum, limit)
  {
  }

  lemma WeakFits(state: AggState, strongSum: nat, weakSum: nat, w: nat, quorum: nat, limit: nat)
    requires SumsFit(state, strongSum, weakSum, quorum, limit) && strongSum + w + weakSum < UINT64_LIMIT
    ensures SumsFit(StateAfterWeak(state, strongSum, weakSum + w, quorum, limit), strongSum, weakSum + w, quorum, limit)
  {
  }

  lemma CastKeepsFit(p: Policy, b: Block, t: Votes, i: nat, strong: bool)
    requires WellFormed(p) && Counted(p, b, t) && StateFits(p, t) && i < |p.finalizers|
    ensures StateFits(p, Cast(p, b, t, i, strong))
  {
    hide MaxWeakSum, WeightTo, TotalTo, SignedTo, SumsFit, StateAfterStrong, StateAfterWeak;
    CastKeepsCount(p, b, t, i, strong);
    if !HasVoted(t, i) {
      var w := p.finalizers[i].weight;
      if strong {
        StrongFits(t.state, t.strongSum, t.weakSum, w, p.threshold, MaxWeakSum(p));
      } else {
        WeakFits(t.state, t.strongSum, t.weakSum, w, p.threshold, MaxWeakSum(p));
      }
    }
  }

  lemma {:induction false} ReachableFits(p: Policy, b: Block, ms: seq<Message>, n: nat)
    requires WellFormed(p) && n <= |ms|
    ensures StateFits(p, TallyTo(p, b, ms, n))
  {
    hide Counted, StateOk, AddTo, StateFits, WellFormed, NoVotes;
    if n == 0 {
      NothingFits(p);
    } else {
      ReachableFits(p, b, ms, n - 1);
      ReachableOk(p, b, ms, n - 1);
      AddKeepsFit(p, b, TallyTo(p, b, ms, n - 1), ms[n - 1]);
    }
  }

  lemma AddKeepsFit(p: Policy, b: Block, t: Votes, m: Message)
    requires WellFormed(p) && Counted(p, b, t) && StateFits(p, t)
    ensures StateFits(p, AddTo(p, b, t, m).1)
  {
    hide Counted, Cast, StateFits, WellFormed;
    var i := IndexOf(p.finalizers, m.key);
    if i.Some? { CastKeepsFit(p, b, t, i.value, m.strong); }
  }

  lemma NothingFits(p: Policy)
    requires WellFormed(p)
    ensures StateFits(p, NoVotes(|p.finalizers|))
  {
    hide MaxWeakSum;
  }

  /** After any messages the sums tell the state: unrestricted or restricted, by the limit on
      weak votes, while the votes weigh too little, and after that weak below the limit and weak
      for good above it, unless the strong votes suffice. */
  lemma StateExactly(p: Policy, b: Block, ms: seq<Message>, n: nat)
    requires WellFormed(p) && n <= |ms|
    ensures var t := TallyTo(p, b, ms, n);
      var sum, limit := t.strongSum + t.weakSum, MaxWeakSum(p);
      && (t.state == Unrestricted <==> sum < p.threshold && t.weakSum <= limit)
      && (t.state == Restricted <==> sum < p.threshold && t.weakSum > limit)
      && (sum >= p.threshold && t.strongSum < p.threshold && t.weakSum < limit ==> t.state == WeakAchieved)
      && (sum >= p.threshold && t.strongSum < p.threshold && t.weakSum > limit ==> t.state == WeakFinal)
      && (t.state == WeakAchieved ==> t.strongSum < p.threshold && t.weakSum <= limit)
      && (t.state == Strong ==> t.strongSum >= p.threshold)
  {
    hide TallyTo, MaxWeakSum;
    ReachableFits(p, b, ms, n);
  }

  // ---- landing on the limit ----------------------------------------------------------------

  /** Message `k` is counted as the weak vote that lands on the limit. */
  ghost predicate LandsAt(p: Policy, b: Block, ms: seq<Message>, k: nat)
    requires k < |ms|
  {
    var i := IndexOf(p.finalizers, ms[k].key);
    i.Some? && SignedProperly(ms[k], b) && LandsOnLimit(p, TallyTo(p, b, ms, k), i.value, ms[k].strong)
  }

  ghost predicate HasLanded(p: Policy, b: Block, ms: seq<Message>, n: nat)
    requires n <= |ms|
  {
    exists k :: 0 <= k < n && LandsAt(p, b, ms, k)
  }

  lemma {:induction false} WeakFinalHistory(p: Policy, b: Block, ms: seq<Message>, n: nat)
    requires WellFormed(p) && n <= |ms|
    ensures var t := TallyTo(p, b, ms, n);
      && (t.state == WeakFinal ==> t.weakSum > Total(p) - p.threshold || HasLanded(p, b, ms, n))
      && (HasLanded(p, b, ms, n) ==> t.state == WeakFinal)
  {
    hide HasLanded, LandsAt, WellFormed, AddTo, Total, Counted, StateOk;
    if n == 0 {
      NothingLanded(p, b, ms);
    } else {
      WeakFinalHistory(p, b, ms, n - 1);
      ReachableOk(p, b, ms, n - 1);
      MessageEnters(p, b, ms, n - 1);
      LandingStep(p, b, ms, n);
    }
  }

  lemma NothingLanded(p: Policy, b: Block, ms: seq<Message>)
    ensures !HasLanded(p, b, ms, 0) && TallyTo(p, b, ms, 0).state == Unrestricted
  {
  }

  /** The same for one message, counted or not. */
  lemma MessageEnters(p: Policy, b: Block, ms: seq<Message>, k: nat)
    requires k < |ms| && WellFormed(p)
    requires Counted(p, b, TallyTo(p, b, ms, k)) && StateOk(p, TallyTo(p, b, ms, k))
    ensures var t := TallyTo(p, b, ms, k); var u := AddTo(p, b, t, ms[k]).1;
      && t.weakSum <= u.weakSum
      && (t.state != WeakFinal && u.state == WeakFinal ==> u.weakSum > Total(p) - p.threshold || LandsAt(p, b, ms, k))
      && (t.state == WeakFinal || LandsAt(p, b, ms, k) ==> u.state == WeakFinal)
  {
    hide TallyTo, Counted, StateOk, Cast, LandsOnLimit, WellFormed, Total;
    var t, i := TallyTo(p, b, ms, k), IndexOf(p.finalizers, ms[k].key);
    if i.Some? {
      WeakFinalIsEntered(p, b, t, i.value, ms[k].strong);
      if HasVoted(t, i.value) { LandedBefore(p, t, i.value, ms[k].strong); }
    }
  }

  lemma LandingStep(p: Policy, b: Block, ms: seq<Message>, n: nat)
    requires 0 < n <= |ms|
    ensures HasLanded(p, b, ms, n) <==> HasLanded(p, b, ms, n - 1) || LandsAt(p, b, ms, n - 1)
  {
    hide LandsAt;
  }

  lemma LandedBefore(p: Policy, t: Votes, i: nat, strong: bool)
    requires i < |p.finalizers| == |t.strong| == |t.weak| && HasVoted(t, i)
    ensures !LandsOnLimit(p, t, i, strong)
  {
  }

  /** Over any messages the documented meaning of Restricted and WeakFinal is lost exactly
      while a weak vote has landed on the limit and no weak weight has come after it. */
  lemma StrongRuledOutExactly(p: Policy, b: Block, ms: seq<Message>, n: nat)
    requires WellFormed(p) && n <= |ms|
    ensures var t := TallyTo(p, b, ms, n);
      StrongRuledOut(p, t) <==> !HasLanded(p, b, ms, n) || t.weakSum > Total(p) - p.threshold
  {
    hide TallyTo, Counted, HasLanded, MaxWeakSum;
    WeakFinalHistory(p, b, ms, n);
    ReachableOk(p, b, ms, n);
    MaxWeakSumIsExact(p);
  }

  /** Over any messages Strong is reported exactly when the strong votes weigh enough and no
      weak vote had landed on the limit. */
  lemma StrongIsReported(p: Policy, b: Block, ms: seq<Message>, n: nat)
    requires WellFormed(p) && n <= |ms|
    ensures var t := TallyTo(p, b, ms, n);
      t.state == Strong <==> t.strongSum >= p.threshold && !HasLanded(p, b, ms, n)
  {
    hide TallyTo, Counted, HasLanded, MaxWeakSum;
    WeakFinalHistory(p, b, ms, n);
    ReachableOk(p, b, ms, n);
    SumsBounded(p, b, TallyTo(p, b, ms, n));
  }

  datatype Voted = NotVoted | VotedStrong | VotedWeak

  /** The first properly signed vote of a key. */
  function FirstVote(ms: seq<Message>, b: Block, k: Key, n: nat): (r: Voted)
    requires n <= |ms|
  {
    if n == 0 then NotVoted
    else
      var r := FirstVote(ms, b, k, n - 1);
      if r != NotVoted || ms[n - 1].key != k || !SignedProperly(ms[n - 1], b) then r
      else if ms[n - 1].strong then VotedStrong else VotedWeak
  }

  predicate BitsShow(t: Votes, j: nat, v: Voted)
    requires j < |t.strong| == |t.weak|
  {
    t.strong[j] == (v == VotedStrong) && t.weak[j] == (v == VotedWeak)
  }

  /** What one message does to the bits of finalizer `j`. */
  lemma AddToBits(p: Policy, b: Block, t: Votes, m: Message, j: nat)
    requires DistinctKeys(p.finalizers)
    requires j < |p.finalizers| == |t.strong| == |t.weak|
    ensures var u := AddTo(p, b, t, m).1;
      var counts := m.key == p.finalizers[j].key && SignedProperly(m, b) && !HasVoted(t, j);
      && u.strong[j] == (t.strong[j] || (counts && m.strong))
      && u.weak[j] == (t.weak[j] || (counts && !m.strong))
  {
    var i := IndexOf(p.finalizers, m.key);
    if i.Some? && i.value != j {
      assert p.finalizers[i.value].key != p.finalizers[j].key;
    }
  }

  /** The incremental tally is its specification: a finalizer's bits are its first properly
      signed vote, whatever else arrived. */
  lemma {:induction false} BitsAreFirstVotes(p: Policy, b: Block, ms: seq<Message>, n: nat, j: nat)
    requires WellFormed(p) && n <= |ms| && j < |p.finalizers|
    ensures BitsShow(TallyTo(p, b, ms, n), j, FirstVote(ms, b, p.finalizers[j].key, n))
  {
    hide AddTo, SignedProperly;
    if n == 0 {
    } else {
      BitsAreFirstVotes(p, b, ms, n - 1, j);
      AddToBits(p, b, TallyTo(p, b, ms, n - 1), ms[n - 1], j);
    }
  }

  /** Who has voted, as a bitset of the policy. */
  function VoterBits(p: Policy, b: Block, ms: seq<Message>): (bits: Bits)
    ensures |bits| == |p.finalizers|
  {
    seq(|p.finalizers|, i requires 0 <= i < |p.finalizers| => FirstVote(ms, b, p.finalizers[i].key, |ms|) != NotVoted)
  }

  lemma {:induction false} SplitWeightTo(fs: seq<Authority>, a: Bits, b: Bits, c: Bits, n: nat)
    requires n <= |fs| == |a| == |b| == |c|
    requires forall i :: 0 <= i < n ==> c[i] == (a[i] || b[i]) && !(a[i] && b[i])
    ensures WeightTo(fs, c, n) == WeightTo(fs, a, n) + WeightTo(fs, b, n)
  {
    if n == 0 {
    } else {
      SplitWeightTo(fs, a, b, c, n - 1);
    }
  }

  /** The quorum answer depends on the set of distinct known voters alone: not on the order,
      not on duplicates, not on unknown keys or bad signatures. */
  lemma QuorumIsVoterWeight(p: Policy, b: Block, ms: seq<Message>)
    requires WellFormed(p)
    ensures QuorumMet(TallyTo(p, b, ms, |ms|).state) <==> Weight(p.finalizers, VoterBits(p, b, ms)) >= p.threshold
  {
    hide TallyTo, FirstVote;
    var t := TallyTo(p, b, ms, |ms|);
    ReachableOk(p, b, ms, |ms|);
    forall i | 0 <= i < |p.finalizers|
      ensures VoterBits(p, b, ms)[i] == (t.strong[i] || t.weak[i])
    {
      BitsAreFirstVotes(p, b, ms, |ms|, i);
    }
    SplitWeightTo(p.finalizers, t.strong, t.weak, VoterBits(p, b, ms), |p.finalizers|);
  }

  /** A quorum once met stays met, whatever votes follow. */
  lemma {:induction false} QuorumStaysMet(p: Policy, b: Block, ms: seq<Message>, n: nat, m: nat)
    requires n <= m <= |ms| && QuorumMet(TallyTo(p, b, ms, n).state)
    ensures QuorumMet(TallyTo(p, b, ms, m).state)
  {
    hide AddTo;
    if n == m {
    } else {
      QuorumStaysMet(p, b, ms, n, m - 1);
      AddKeepsQuorum(p, b, TallyTo(p, b, ms, m - 1), ms[m - 1]);
    }
  }

  lemma AddKeepsQuorum(p: Policy, b: Block, t: Votes, m: Message)
    requires |p.finalizers| == |t.strong| == |t.weak| && QuorumMet(t.state)
    ensures QuorumMet(AddTo(p, b, t, m).1.state)
  {
    hide Cast, SignedProperly;
    var i := IndexOf(p.finalizers, m.key);
    if i.Some? { CastKeepsQuorum(p, b, t, i.value, m.strong); }
  }

  lemma CastKeepsQuorum(p: Policy, b: Block, t: Votes, i: nat, strong: bool)
    requires i < |p.finalizers| == |t.strong| == |t.weak| && QuorumMet(t.state)
    ensures QuorumMet(Cast(p, b, t, i, strong).state)
  {
    hide MaxWeakSum;
  }

  /** Key `k` has sent a properly signed vote. */
  predicate HasSigned(ms: seq<Message>, b: Block, k: Key) {
    exists i :: 0 <= i < |ms| && SignedProperly(ms[i], b) && ms[i].key == k
  }

  lemma SameVoters(p: Policy, b: Block, ms: seq<Message>, ns: seq<Message>)
    requires forall k :: IndexOf(p.finalizers, k).Some? ==> (HasSigned(ms, b, k) <==> HasSigned(ns, b, k))
    ensures VoterBits(p, b, ms) == VoterBits(p, b, ns)
  {
    hide FirstVote, SignedProperly;
    forall i | 0 <= i < |p.finalizers| ensures VoterBits(p, b, ms)[i] == VoterBits(p, b, ns)[i] {
      var k := p.finalizers[i].key;
      assert IndexOf(p.finalizers, k).Some?;
      VotedSomewhere(ms, b, k, |ms|);
      VotedSomewhere(ns, b, k, |ns|);
    }
  }

  /** Only the set of finalizers that voted matters to the quorum: not the order of the
      messages, not which vote of a finalizer came first, not repeats or strangers. */
  lemma OrderIsIrrelevant(p: Policy, b: Block, ms: seq<Message>, ns: seq<Message>)
    requires WellFormed(p)
    requires forall k :: IndexOf(p.finalizers, k).Some? ==> (HasSigned(ms, b, k) <==> HasSigned(ns, b, k))
    ensures QuorumMet(TallyTo(p, b, ms, |ms|).state) <==> QuorumMet(TallyTo(p, b, ns, |ns|).state)
  {
    hide TallyTo, WellFormed, HasSigned;
    QuorumIsVoterWeight(p, b, ms);
    QuorumIsVoterWeight(p, b, ns);
    SameVoters(p, b, ms, ns);
  }

  lemma {:induction false} VotedSomewhere(ms: seq<Message>, b: Block, k: Key, n: nat)
    requires n <= |ms|
    ensures FirstVote(ms, b, k, n) != NotVoted <==> exists i :: 0 <= i < n && SignedProperly(ms[i], b) && ms[i].key == k
  {
    if n == 0 {
    } else {
      VotedSomewhere(ms, b, k, n - 1);
    }
  }

  function Sample(): (p: Policy)
    ensures |p.finalizers| == 5
  {
    Policy(1, 3, [Authority(0, 1), Authority(1, 1), Authority(2, 1), Authority(3, 1), Authority(4, 1)])
  }

  lemma SampleIsWellFormed()
    ensures WellFormed(Sample()) && MaxWeakSum(Sample()) == 2 && Sample().threshold == 3
    ensures forall i :: 0 <= i < 5 ==> Sample().finalizers[i].weight == 1
  {
    var fs := Sample().finalizers;
    assert TotalTo(fs, 1) == 1 && TotalTo(fs, 2) == 2 && TotalTo(fs, 3) == 3;
    assert TotalTo(fs, 4) == 4 && TotalTo(fs, 5) == 5;
    MaxWeakSumIsExact(Sample());
  }

  /** The sums and the state after one vote in the sample. */
  lemma SampleStep(b: Block, t: Votes, i: nat, strong: bool)
    requires |t.strong| == |t.weak| == 5 && i < 5 && !HasVoted(t, i)
    requires t.strongSum + t.weakSum < 100
    ensures var u := Cast(Sample(), b, t, i, strong);
      && |u.strong| == |u.weak| == 5
      && (forall j :: 0 <= j < 5 && j != i ==> HasVoted(u, j) == HasVoted(t, j))
      && u.strongSum == t.strongSum + (if strong then 1 else 0)
      && u.weakSum == t.weakSum + (if strong then 0 else 1)
      && u.state == (if strong then StateAfterStrong(t.state, t.strongSum + 1, t.weakSum, 3)
                     else StateAfterWeak(t.state, t.strongSum, t.weakSum + 1, 3, 2))
  {
    hide MaxWeakSum, Sample, StateAfterStrong, StateAfterWeak;
    SampleIsWellFormed();
  }

  /** Five equal finalizers, threshold three. The same five votes in two orders: in the first
      the third strong vote comes after WeakFinal was declared and no strong certificate is
      ever made, though three strong votes are there; in the second it is made. */
  lemma StrongQuorumCanBeMissed(b: Block) returns (first: Votes, second: Votes)
    ensures WellFormed(Sample())
    ensures first == Cast(Sample(), b, Cast(Sample(), b, Cast(Sample(), b, Cast(Sample(), b,
      Cast(Sample(), b, NoVotes(5), 0, true), 1, true), 2, false), 3, false), 4, true)
    ensures second == Cast(Sample(), b, Cast(Sample(), b, Cast(Sample(), b, Cast(Sample(), b,
      Cast(Sample(), b, NoVotes(5), 2, false), 3, false), 0, true), 1, true), 4, true)
    ensures first.strongSum == second.strongSum == 3
    ensures first.state == WeakFinal && second.state == Strong
  {
    hide Cast, Sample, WellFormed;
    SampleIsWellFormed();
    first, second := NoVotes(5), NoVotes(5);
    SampleStep(b, first, 0, true);
    first := Cast(Sample(), b, first, 0, true);
    SampleStep(b, first, 1, true);
    first := Cast(Sample(), b, first, 1, true);
    SampleStep(b, first, 2, false);
    first := Cast(Sample(), b, first, 2, false);
    SampleStep(b, first, 3, false);
    first := Cast(Sample(), b, first, 3, false);
    SampleStep(b, first, 4, true);
    first := Cast(Sample(), b, first, 4, true);
    SampleStep(b, second, 2, false);
    second := Cast(Sample(), b, second, 2, false);
    SampleStep(b, second, 3, false);
    second := Cast(Sample(), b, second, 3, false);
    SampleStep(b, second, 0, true);
    second := Cast(Sample(), b, second, 0, true);
    SampleStep(b, second, 1, true);
    second := Cast(Sample(), b, second, 1, true);
    SampleStep(b, second, 4, true);
    second := Cast(Sample(), b, second, 4, true);
  }
}
