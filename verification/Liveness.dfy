/**
  Liveness: in every reachable system some block suits all honest finalizers, whatever they
  are locked on, and their votes alone can make a new block final.
 */
module Liveness {
  import opened Options
  import opened Policies
  import opened Blocks
  import opened HeaderStates
  import opened ChainTracking
  import opened PolicyHistory
  import opened Finalizers
  import opened Certificates
  import opened Protocol
  import opened Safety
  import opened Runs
  import opened Progress

  // ---- a block for everybody ------------------------------------------------------------------

  /** Two blocks that anyone may be locked on at one time are the same block. */
  lemma GroundedSameTime(v: Ballots, root: Block, honest: set<Key>, x: Block, y: Block)
    requires HonestDisciplined(v, root, honest) && PoliciesTrusted(v, root, honest)
    requires Grounded(v, root, x) && Grounded(v, root, y) && x.timestamp == y.timestamp
    ensures x == y
  {
    hide State, LibBlock, HonestDisciplined, PoliciesTrusted, Certified, ForkPoint;
    AcceptedAncestor(v, root, x, x);
    AcceptedAncestor(v, root, y, y);
    RootIsLowest(x);
    RootIsLowest(y);
    if x == root {
      AncOrder(root, y);
    } else if y == root {
      AncOrder(root, x);
    } else {
      var d := ForkPoint(x, y);
      LibMeetsFork(v, root, honest, x, y);
      LibMeetsFork(v, root, honest, y, x);
      ForkPointIsHighest(x, y, ForkPoint(y, x));
      AncOrder(d, x);
      AncOrder(ForkPoint(y, x), d);
      SameTimeSameBlock(v, root, honest, d, x, y);
    }
  }

  lemma LibMeetsFork(v: Ballots, root: Block, honest: set<Key>, x: Block, y: Block)
    requires HonestDisciplined(v, root, honest) && PoliciesTrusted(v, root, honest)
    requires Grounded(v, root, x) && Grounded(v, root, y) && x.timestamp == y.timestamp && x != root
    ensures Valid(x) && Valid(y) && Root(x) == Root(y) == root && x.Next?
    ensures Num(LibBlock(x)) <= Num(ForkPoint(x, y))
  {
    hide State, LibBlock, HonestDisciplined, PoliciesTrusted, Certified, ForkPoint;
    AcceptedAncestor(v, root, x, x);
    AcceptedAncestor(v, root, y, y);
    AncOrder(QcBlock(x), x);
    LibBelowFork(v, root, honest, x, y, ForkPoint(x, y));
  }

  lemma {:induction false} LatestLock(s: System, root: Block, honest: set<Key>, keys: set<Key>) returns (l: Block)
    requires Good(s, root, honest) && Accepted(s.ballots, root, root) && keys <= honest && keys <= s.fsi.Keys
    ensures Grounded(s.ballots, root, l)
    ensures forall k :: k in keys ==> Time(s.fsi[k].lock) <= l.timestamp
    decreases |keys|
  {
    hide State, Accepted, Certified, HonestDisciplined, LastVoteMatches, Remembered;
    if keys == {} {
      l := root;
    } else {
      var k :| k in keys;
      l := LatestLock(s, root, honest, keys - {k});
      assert RecordGood(s, root, k);
      var f := s.fsi[k];
      if Time(f.lock) > l.timestamp { l := f.lock.value.id; }
    }
  }

  lemma {:induction false} LatestVote(s: System, keys: set<Key>, time: nat) returns (t: nat)
    requires keys <= s.fsi.Keys
    ensures t >= time && forall k :: k in keys ==> Time(s.fsi[k].lastVote) <= t
    decreases |keys|
  {
    if keys == {} {
      t := time;
    } else {
      var k :| k in keys;
      t := LatestVote(s, keys - {k}, time);
      if Time(s.fsi[k].lastVote) > t { t := Time(s.fsi[k].lastVote); }
    }
  }

  /** A block that anyone may be locked on can be extended by a block that claims it. */
  lemma ClaimingChild(v: Ballots, root: Block, l: Block, time: nat) returns (b: Block)
    requires Grounded(v, root, l)
    ensures Accepted(v, root, b) && b.Next? && b.parent == l && b.proposal.None? && b.timestamp > time
    ensures Valid(b) && QcBlock(b) == l
  {
    hide State, QcFor, LibBlock;
    AcceptedAncestor(v, root, l, l);
    var now := if time < l.timestamp then l.timestamp + 1 else time + 1;
    if l.Genesis? {
      b := Next(l, now, Claim(l), None, 0);
      RejectedOnlyForGeneration(b);
    } else {
      var q :| QcFor(v, l, q);
      var r := q.(num := Num(l));
      SameProof(v, l, q, r);
      b := Next(l, now, QcClaim(Num(l), IsStrong(r)), None, 0);
      ClaimIsAccepted(v, root, l, r, b);
    }
    ClaimsParent(b);
  }

  // The number in a certificate is not part of what is verified.
  lemma SameProof(v: Ballots, b: Block, q: Qc, r: Qc)
    requires Valid(b) && QcFor(v, b, q) && q.active == r.active && q.pending == r.pending
    ensures QcFor(v, b, r)
  {
    hide State;
  }

  /** No deadlock: in every reachable system there is an accepted block, as late as one likes,
      on which every honest finalizer votes. */
  lemma EveryoneMayVote(s: System, root: Block, honest: set<Key>, time: nat) returns (b: Block)
    requires Good(s, root, honest) && PoliciesTrusted(s.ballots, root, honest) && Accepted(s.ballots, root, root)
    ensures Accepted(s.ballots, root, b) && Valid(b) && b.Next? && b.proposal.None? && b.timestamp > time
    ensures Grounded(s.ballots, root, b.parent)
    ensures forall k :: k in honest && k in s.fsi ==> Vote(s.fsi[k], b) != NoVote
  {
    hide State, Accepted, HonestDisciplined, PoliciesTrusted, Certified;
    var keys := set k | k in honest && k in s.fsi;
    var l := LatestLock(s, root, honest, keys);
    var t := LatestVote(s, keys, time);
    b := ClaimingChild(s.ballots, root, l, t);
    forall k | k in honest && k in s.fsi ensures Vote(s.fsi[k], b) != NoVote {
      assert k in keys && RecordGood(s, root, k);
      OneMayVote(s, root, honest, k, b, l);
    }
  }

  lemma OneMayVote(s: System, root: Block, honest: set<Key>, k: Key, b: Block, l: Block)
    requires HonestDisciplined(s.ballots, root, honest) && PoliciesTrusted(s.ballots, root, honest)
    requires k in s.fsi && LockGrounded(s.ballots, root, s.fsi[k]) && Grounded(s.ballots, root, l)
    requires Valid(b) && b.Next? && b.parent == l && QcBlock(b) == l
    requires Time(s.fsi[k].lock) <= l.timestamp && Time(s.fsi[k].lastVote) < b.timestamp
    ensures Vote(s.fsi[k], b) != NoVote
  {
    hide State, Accepted, HonestDisciplined, PoliciesTrusted, Certified, LibBlock;
    var lock := s.fsi[k].lock.value.id;
    if lock.timestamp == l.timestamp { GroundedSameTime(s.ballots, root, honest, lock, l); }
    LibIsAncestor(b);
  }

  // ---- a round of votes -----------------------------------------------------------------------

  ghost function Last(ss: seq<System>): (s: System)
    requires ss != []
  {
    ss[|ss| - 1]
  }

  /** What a finalizer's vote on `b` leaves in the system. */
  ghost predicate HasVotedOn(s: System, t: System, k: Key, b: Block)
    requires Valid(b) && Valid(QcBlock(b)) && k in s.fsi
  {
    && k in t.fsi && t.fsi[k] == AfterVote(s.fsi[k], b)
    && BallotOf(s.fsi[k], b) in BallotsOf(t.ballots, k)
  }

  /** The honest finalizers in `keys` vote on `b`, one after the other. */
  lemma {:induction false} RoundOf(root: Block, honest: set<Key>, ss: seq<System>, b: Block, keys: set<Key>)
    returns (rr: seq<System>)
    requires Run(root, honest, ss) && ss != [] && honest <= Last(ss).fsi.Keys && keys <= honest
    requires Accepted(Last(ss).ballots, root, b) && b.Next? && Valid(b) && Valid(QcBlock(b))
    requires forall k :: k in honest ==> Vote(Last(ss).fsi[k], b) != NoVote
    ensures Run(root, honest, rr) && rr != [] && ss <= rr && honest <= Last(rr).fsi.Keys
    ensures Grows(Last(ss).ballots, Last(rr).ballots)
    ensures forall k :: k in keys ==> HasVotedOn(Last(ss), Last(rr), k, b)
    ensures forall k :: k in honest - keys ==> Last(rr).fsi[k] == Last(ss).fsi[k]
    decreases |keys|
  {
    hide State, Accepted, AfterVote, Vote, Run, Grows, ChainOk, Root, QcBlock;
    if keys == {} {
      rr := ss;
      GrowsItself(Last(ss).ballots);
    } else {
      var k :| k in keys;
      var before := RoundOf(root, honest, ss, b, keys - {k});
      AcceptedGrows(Last(ss).ballots, Last(before).ballots, root, b);
      rr := OneVotes(root, honest, before, b, k);
      GrowsOn(Last(ss).ballots, Last(before).ballots, Last(rr).ballots);
      forall j | j in keys ensures HasVotedOn(Last(ss), Last(rr), j, b) {
        if j != k { assert HasVotedOn(Last(ss), Last(before), j, b); }
      }
    }
  }

  lemma GrowsItself(v: Ballots)
    ensures Grows(v, v)
  {
  }

  lemma GrowsOn(v: Ballots, w: Ballots, x: Ballots)
    requires Grows(v, w) && Grows(w, x)
    ensures Grows(v, x)
  {
    forall k ensures BallotsOf(v, k) <= BallotsOf(x, k) {
      assert BallotsOf(v, k) <= BallotsOf(w, k) && BallotsOf(w, k) <= BallotsOf(x, k);
    }
  }

  lemma OneVotes(root: Block, honest: set<Key>, ss: seq<System>, b: Block, k: Key) returns (rr: seq<System>)
    requires Run(root, honest, ss) && ss != [] && k in honest && k in Last(ss).fsi
    requires Accepted(Last(ss).ballots, root, b) && b.Next? && Valid(b) && Valid(QcBlock(b))
    requires Vote(Last(ss).fsi[k], b) != NoVote
    ensures Run(root, honest, rr) && rr != [] && ss <= rr
    ensures HasVotedOn(Last(ss), Last(rr), k, b) && Grows(Last(ss).ballots, Last(rr).ballots)
    ensures Last(rr).fsi.Keys == Last(ss).fsi.Keys
    ensures forall j :: j != k ==>
      && (j in Last(ss).fsi ==> Last(rr).fsi[j] == Last(ss).fsi[j])
      && BallotsOf(Last(rr).ballots, j) == BallotsOf(Last(ss).ballots, j)
  {
    hide Run, Transition, HasVotedOn, Grows, Vote;
    var t := VoteIsTaken(Last(ss), root, honest, b, k);
    rr := ss + [t];
    RunGoesOn(root, honest, ss, t);
  }

  lemma RunGoesOn(root: Block, honest: set<Key>, ss: seq<System>, t: System)
    requires Run(root, honest, ss) && Transition(Last(ss), t, root, honest)
    ensures Run(root, honest, ss + [t])
  {
    hide Transition;
  }

  lemma VoteIsTaken(s: System, root: Block, honest: set<Key>, b: Block, k: Key) returns (t: System)
    requires k in honest && k in s.fsi && Accepted(s.ballots, root, b) && b.Next? && Valid(b) && Valid(QcBlock(b))
    requires Vote(s.fsi[k], b) != NoVote
    ensures Transition(s, t, root, honest) && HasVotedOn(s, t, k, b) && Grows(s.ballots, t.ballots)
    ensures t.fsi.Keys == s.fsi.Keys
    ensures forall j :: j != k ==>
      && (j in s.fsi ==> t.fsi[j] == s.fsi[j]) && BallotsOf(t.ballots, j) == BallotsOf(s.ballots, j)
  {
    hide State, Accepted, AfterVote, Vote, QcBlock, ChainOk, Root;
    t := After(s, root, honest, HonestVote(k, b));
    var bs, y := BallotsOf(s.ballots, k), BallotOf(s.fsi[k], b);
    assert BallotsOf(t.ballots, k) == bs + [y] && (bs + [y])[|bs|] == y;
  }

  /** All honest finalizers vote on `b`. */
  lemma Round(root: Block, honest: set<Key>, ss: seq<System>, b: Block) returns (rr: seq<System>)
    requires Run(root, honest, ss) && honest <= Last(ss).fsi.Keys
    requires Accepted(Last(ss).ballots, root, b) && b.Next? && Valid(b) && Valid(QcBlock(b))
    requires forall k :: k in honest ==> Vote(Last(ss).fsi[k], b) != NoVote
    ensures Run(root, honest, rr) && ss <= rr && honest <= Last(rr).fsi.Keys
    ensures Grows(Last(ss).ballots, Last(rr).ballots)
    ensures forall k :: k in honest ==> HasVotedOn(Last(ss), Last(rr), k, b)
  {
    rr := RoundOf(root, honest, ss, b, honest);
  }

  // ---- certificates from honest votes ---------------------------------------------------------

  function BitsOf(p: Policy, keys: set<Key>): (bits: Bits)
    ensures |bits| == |p.finalizers|
  {
    seq(|p.finalizers|, i requires 0 <= i < |p.finalizers| => p.finalizers[i].key in keys)
  }

  /** The honest finalizers reach the threshold of every policy in force. */
  predicate Suffice(honest: set<Key>, pol: VotingPolicies) {
    && Weight(pol.active.finalizers, BitsOf(pol.active, honest)) >= pol.active.threshold
    && (pol.pending.Some? ==>
          Weight(pol.pending.value.finalizers, BitsOf(pol.pending.value, honest)) >= pol.pending.value.threshold)
  }

  lemma {:induction false} MoreWeighMore(fs: seq<Authority>, a: Bits, b: Bits, n: nat)
    requires n <= |fs| == |a| == |b| && forall i :: 0 <= i < n && a[i] ==> b[i]
    ensures WeightTo(fs, a, n) <= WeightTo(fs, b, n)
  {
    if n == 0 {
    } else {
      MoreWeighMore(fs, a, b, n - 1);
    }
  }

  /** If all honest finalizers voted strong, that is a strong quorum. */
  lemma HonestStrongQuorum(v: Ballots, honest: set<Key>, pol: VotingPolicies, b: Block)
    requires Suffice(honest, pol) && forall k :: k in honest ==> Ballot(b, true) in BallotsOf(v, k)
    ensures StrongQuorum(v, pol, b)
  {
    hide WeightTo;
    MoreWeighMore(pol.active.finalizers, BitsOf(pol.active, honest), StrongBits(v, pol.active, b), |pol.active.finalizers|);
    if pol.pending.Some? {
      var p := pol.pending.value;
      MoreWeighMore(p.finalizers, BitsOf(p, honest), StrongBits(v, p, b), |p.finalizers|);
    }
  }

  /** The signature of finalizers of whom some voted strong and the others weak. */
  function MixedSig(p: Policy, b: Block, strong: set<Key>, weak: set<Key>): (s: QcSig) {
    var x, y := Some(BitsOf(p, strong)), Some(BitsOf(p, weak));
    QcSig(x, y, Signed(p, x, b, true) + Signed(p, y, b, false))
  }

  lemma {:induction false} SignedByKeys(p: Policy, keys: set<Key>, b: Block, strong: bool, n: nat, x: Signature)
    requires n <= |p.finalizers| && x in SignedTo(p.finalizers, Some(BitsOf(p, keys)), b, strong, n)
    ensures x.key in keys && x.block == b && x.strong == strong
  {
    var votes := Some(BitsOf(p, keys));
    if x in SignedTo(p.finalizers, votes, b, strong, n - 1) {
      SignedByKeys(p, keys, b, strong, n - 1, x);
    } else {
      assert Bit(votes, n - 1) && x == Signature(p.finalizers[n - 1].key, b, strong);
    }
  }

  lemma {:induction false} WeightsAdd(p: Policy, strong: set<Key>, weak: set<Key>, n: nat)
    requires n <= |p.finalizers| && strong !! weak
    ensures WeightTo(p.finalizers, BitsOf(p, strong), n) + WeightTo(p.finalizers, BitsOf(p, weak), n) ==
      WeightTo(p.finalizers, BitsOf(p, strong + weak), n)
  {
    if n == 0 {
    } else {
      WeightsAdd(p, strong, weak, n - 1);
    }
  }

  lemma MixedSigVerifies(v: Ballots, p: Policy, b: Block, strong: set<Key>, weak: set<Key>)
    requires strong !! weak
    requires forall k :: k in strong ==> Ballot(b, true) in BallotsOf(v, k)
    requires forall k :: k in weak ==> Ballot(b, false) in BallotsOf(v, k)
    requires Weight(p.finalizers, BitsOf(p, strong + weak)) >= p.threshold
    ensures var s := MixedSig(p, b, strong, weak);
      FormatOk(s, p) && WeightsOk(s, p) && SignaturesOk(s, p, b) && SigCast(v, s)
  {
    hide SignedTo, WeightTo;
    var s := MixedSig(p, b, strong, weak);
    WeightsAdd(p, strong, weak, |p.finalizers|);
    forall x | x in s.sig ensures Protocol.Cast(v, x) {
      if x in Signed(p, s.strongVotes, b, true) {
        SignedByKeys(p, strong, b, true, |p.finalizers|, x);
      } else {
        SignedByKeys(p, weak, b, false, |p.finalizers|, x);
      }
    }
  }

  /** Honest votes of either kind make a certificate, claimed as a weak one. */
  lemma HonestVotesCertify(v: Ballots, b: Block, strong: set<Key>, weak: set<Key>) returns (q: Qc)
    requires Valid(b) && strong !! weak && Suffice(strong + weak, PoliciesOf(Of(b)))
    requires forall k :: k in strong ==> Ballot(b, true) in BallotsOf(v, k)
    requires forall k :: k in weak ==> Ballot(b, false) in BallotsOf(v, k)
    ensures QcFor(v, b, q) && q.num == Num(b) && !IsStrong(q)
  {
    hide State, FormatOk, WeightsOk, SignaturesOk, SigCast, WeightTo;
    var pol := PoliciesOf(Of(b));
    MixedSigVerifies(v, pol.active, b, strong, weak);
    q := Qc(Num(b), MixedSig(pol.active, b, strong, weak), None);
    if pol.pending.Some? {
      var p := pol.pending.value;
      MixedSigVerifies(v, p, b, strong, weak);
      q := q.(pending := Some(MixedSig(p, b, strong, weak)));
      SameVotesShown(pol.active, p, b, strong, weak);
    }
  }

  lemma SameVotesShown(p: Policy, w: Policy, b: Block, strong: set<Key>, weak: set<Key>)
    ensures DualVotesAgree(p, w, MixedSig(p, b, strong, weak), MixedSig(w, b, strong, weak))
  {
    hide SignedTo;
  }

  // ---- finality can always move ---------------------------------------------------------------

  /** Whoever voted on `b` votes strong on a child that claims `b`, whatever the lock was. */
  lemma StrongFollows(v: Ballots, root: Block, f: Fsi, b: Block, c: Block)
    requires b.Next? && Valid(b) && Valid(QcBlock(b)) && Vote(f, b) != NoVote && LockGrounded(v, root, f)
    requires c.Next? && Valid(c) && c.parent == b && QcBlock(c) == b
    ensures Vote(AfterVote(f, b), c) == StrongVote
  {
    hide State, LibBlock, Accepted, Certified;
    AncOrder(b, c);
    AncOrder(QcBlock(b), b);
    var lock := f.lock.value.id;
    if SeesRef(b, f.lock) { AncOrder(lock, b); }
  }

  lemma LocksAreGrounded(root: Block, honest: set<Key>, ss: seq<System>, k: Key)
    requires Run(root, honest, ss) && k in honest && k in Last(ss).fsi
    ensures LockGrounded(Last(ss).ballots, root, Last(ss).fsi[k])
  {
    hide HonestDisciplined, LockGrounded, Remembered, Transition;
    RunIsGood(root, honest, ss, 0, |ss| - 1);
    assert RecordGood(Last(ss), root, k);
  }

  /** After a round on `b`, all honest finalizers vote strong on a child that claims it. */
  lemma StrongRound(root: Block, honest: set<Key>, ss: seq<System>, tt: seq<System>, b: Block, c: Block)
    returns (rr: seq<System>)
    requires Run(root, honest, ss) && Run(root, honest, tt)
    requires honest <= Last(ss).fsi.Keys && honest <= Last(tt).fsi.Keys
    requires b.Next? && Valid(b) && Valid(QcBlock(b))
    requires forall k :: k in honest ==> Vote(Last(ss).fsi[k], b) != NoVote && HasVotedOn(Last(ss), Last(tt), k, b)
    requires Accepted(Last(tt).ballots, root, c) && c.Next? && Valid(c) && c.parent == b && QcBlock(c) == b
    ensures Run(root, honest, rr) && tt <= rr && honest <= Last(rr).fsi.Keys && Grows(Last(tt).ballots, Last(rr).ballots)
    ensures forall k :: k in honest ==>
      && Vote(Last(tt).fsi[k], c) != NoVote && HasVotedOn(Last(tt), Last(rr), k, c)
      && Ballot(c, true) in BallotsOf(Last(rr).ballots, k)
  {
    hide State, Accepted, Vote, AfterVote, LockGrounded, Grows, Transition, ChainOk, Root, QcBlock;
    forall k | k in honest ensures Vote(Last(tt).fsi[k], c) == StrongVote {
      LocksAreGrounded(root, honest, ss, k);
      StrongFollows(Last(ss).ballots, root, Last(ss).fsi[k], b, c);
    }
    rr := Round(root, honest, tt, c);
    forall k | k in honest ensures Ballot(c, true) in BallotsOf(Last(rr).ballots, k) {
      assert HasVotedOn(Last(tt), Last(rr), k, c);
    }
  }

  /** `x` descends from `l` without a further proposal in between. */
  predicate Plain(l: Block, x: Block) {
    x == l || (x.Next? && x.proposal.None? && Plain(l, x.parent))
  }

  /** In every block that only adds blocks without proposals to `l`, the honest finalizers
      reach the thresholds of the policies in force. */
  ghost predicate CarryFrom(l: Block, honest: set<Key>) {
    forall x :: Plain(l, x) && Valid(x) ==> Suffice(honest, PoliciesOf(Of(x)))
  }

  ghost predicate HonestCarry(v: Ballots, root: Block, honest: set<Key>) {
    forall l :: Grounded(v, root, l) ==> CarryFrom(l, honest)
  }

  /** A round on a block for everybody, which certifies it. */
  lemma FirstRound(root: Block, honest: set<Key>, ss: seq<System>, time: nat) returns (rr: seq<System>, b: Block, q: Qc)
    requires Run(root, honest, ss) && root.Genesis? && Valid(root) && honest <= Last(ss).fsi.Keys
    requires PoliciesTrusted(Last(ss).ballots, root, honest) && HonestCarry(Last(ss).ballots, root, honest)
    ensures Run(root, honest, rr) && ss <= rr && honest <= Last(rr).fsi.Keys
    ensures b.Next? && Valid(b) && Valid(QcBlock(b)) && b.timestamp > time && Accepted(Last(rr).ballots, root, b)
    ensures Plain(b.parent, b) && CarryFrom(b.parent, honest)
    ensures forall k :: k in honest ==> Vote(Last(ss).fsi[k], b) != NoVote && HasVotedOn(Last(ss), Last(rr), k, b)
    ensures QcFor(Last(rr).ballots, b, q) && q.num == Num(b) && !IsStrong(q)
  {
    hide State, Vote, AfterVote, PoliciesTrusted, Grows, Transition, ChainOk, Root, QcBlock, QcFor, Grounded,
         Suffice, HonestDisciplined, RecordGood;
    var s := Last(ss);
    RunIsGood(root, honest, ss, 0, |ss| - 1);
    b := EveryoneMayVote(s, root, honest, time);
    ValidAncestor(QcBlock(b), b);
    rr := Round(root, honest, ss, b);
    AcceptedGrows(s.ballots, Last(rr).ballots, root, b);
    var strong := set k | k in honest && Vote(s.fsi[k], b) == StrongVote;
    var weak := honest - strong;
    assert strong + weak == honest;
    assert Plain(b.parent, b);
    forall k | k in honest ensures Ballot(b, k in strong) in BallotsOf(Last(rr).ballots, k) {
      assert HasVotedOn(s, Last(rr), k, b);
    }
    q := HonestVotesCertify(Last(rr).ballots, b, strong, weak);
  }

  /** The next round, on a child that claims the certified block, is all strong. */
  lemma NextRound(root: Block, honest: set<Key>, ss: seq<System>, tt: seq<System>, l: Block, b: Block, q: Qc)
    returns (rr: seq<System>, c: Block, r: Qc)
    requires Run(root, honest, ss) && Run(root, honest, tt)
    requires honest <= Last(ss).fsi.Keys && honest <= Last(tt).fsi.Keys
    requires b.Next? && Valid(b) && Valid(QcBlock(b)) && Accepted(Last(tt).ballots, root, b)
    requires forall k :: k in honest ==> Vote(Last(ss).fsi[k], b) != NoVote && HasVotedOn(Last(ss), Last(tt), k, b)
    requires QcFor(Last(tt).ballots, b, q) && q.num == Num(b) && Plain(l, b) && CarryFrom(l, honest)
    ensures Run(root, honest, rr) && tt <= rr && honest <= Last(rr).fsi.Keys
    ensures c.Next? && Valid(c) && Accepted(Last(rr).ballots, root, c) && Plain(l, c)
    ensures c.claim == QcClaim(Num(b), IsStrong(q)) && c.timestamp > b.timestamp && QcBlock(c) == b
    ensures forall k :: k in honest ==> Vote(Last(tt).fsi[k], c) != NoVote && HasVotedOn(Last(tt), Last(rr), k, c)
    ensures QcFor(Last(rr).ballots, c, r) && r.num == Num(c) && IsStrong(r)
  {
    hide State, Vote, AfterVote, Grows, Transition, QcFor, Suffice, LibBlock, StrongQuorum, Root, QcBlock,
         HasVotedOn, ChainOk;
    c := Next(b, b.timestamp + 1, QcClaim(Num(b), IsStrong(q)), None, 0);
    ClaimIsAccepted(Last(tt).ballots, root, b, q, c);
    AcceptedIsValid(Last(tt).ballots, root, c);
    ClaimsParent(c);
    rr := StrongRound(root, honest, ss, tt, b, c);
    AcceptedGrows(Last(tt).ballots, Last(rr).ballots, root, c);
    HonestStrongQuorum(Last(rr).ballots, honest, PoliciesOf(Of(c)), c);
    r := StrongVotesCertify(Last(rr).ballots, c);
  }

  lemma AcceptedIsValid(v: Ballots, root: Block, b: Block)
    requires Accepted(v, root, b)
    ensures Valid(b) && ChainOk(b)
  {
    hide State;
  }

  /** From every reachable system in which the honest finalizers have started, their votes
      alone lead to a system in which a block later than any given time is final. */
  lemma FinalityCanMove(root: Block, honest: set<Key>, ss: seq<System>, time: nat) returns (rr: seq<System>, e: Block)
    requires Run(root, honest, ss) && root.Genesis? && Valid(root) && honest <= Last(ss).fsi.Keys
    requires PoliciesTrusted(Last(ss).ballots, root, honest) && HonestCarry(Last(ss).ballots, root, honest)
    ensures Run(root, honest, rr) && ss <= rr
    ensures Accepted(Last(rr).ballots, root, e) && LibBlock(e).timestamp > time
  {
    hide State, Vote, AfterVote, PoliciesTrusted, HonestCarry, CarryFrom, Transition, Accepted, QcFor,
         Grounded, Root, QcBlock, HasVotedOn, ChainOk, Plain;
    var tt, b, q := FirstRound(root, honest, ss, time);
    var uu, c, p := NextRound(root, honest, ss, tt, b.parent, b, q);
    var ww, d, r := NextRound(root, honest, tt, uu, b.parent, c, p);
    rr := ww;
    e := Next(d, d.timestamp + 1, QcClaim(Num(d), true), None, 0);
    ClaimIsAccepted(Last(rr).ballots, root, d, r, e);
    AcceptedIsValid(Last(rr).ballots, root, e);
    ClaimsParent(e);
    AcceptedIsValid(Last(rr).ballots, root, d);
  }
}
