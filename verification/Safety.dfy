/**
  Consensus safety. If every policy in force keeps its faulty weight below the overlap of
  two quorums and honest finalizers keep the voting discipline, then no two accepted
  blocks ever disagree about which blocks are final, whatever policies have come and gone.
 */
module Safety {
  import opened Policies
  import opened Blocks
  import opened HeaderStates
  import opened PolicyHistory
  import opened Certificates
  import opened Finalizers
  import opened Protocol

  // ---- voting discipline ----------------------------------------------------------------

  /** What an honest finalizer's earlier ballot x and later ballot y owe each other. */
  ghost predicate PairOk(v: Ballots, root: Block, x: Ballot, y: Ballot) {
    && ChainOk(x.block) && ChainOk(y.block)
    && x.block.timestamp < y.block.timestamp
    && (y.strong ==> x.block.timestamp <= QcTime(y.block) || Anc(x.block, y.block))
    && (x.strong ==> exists l :: LockHeld(v, root, x.block, y.block, l))
  }

  /** Some grounded strict ancestor of `y` is at least as late as what `x` claims. */
  ghost predicate LockHeld(v: Ballots, root: Block, x: Block, y: Block, l: Block)
    requires ChainOk(x)
  {
    Anc(l, y) && l != y && Grounded(v, root, l) && l.timestamp >= QcTime(x)
  }

  ghost predicate Disciplined(v: Ballots, root: Block, bs: seq<Ballot>) {
    && (forall i :: 0 <= i < |bs| ==> Accepted(v, root, bs[i].block))
    && (forall i, j :: 0 <= i < j < |bs| ==> PairOk(v, root, bs[i], bs[j]))
  }

  /** All the theorem asks of honest finalizers. */
  ghost predicate HonestDisciplined(v: Ballots, root: Block, honest: set<Key>) {
    forall k :: k in honest ==> Disciplined(v, root, BallotsOf(v, k))
  }

  /** All the theorem asks of the policies in force. */
  ghost predicate PoliciesTrusted(v: Ballots, root: Block, honest: set<Key>) {
    forall b :: Accepted(v, root, b) ==>
      && Trusted(ActiveAt(b), honest)
      && (PendingAt(b).Some? ==> Trusted(PendingAt(b).value.policy, honest))
  }

  // ---- from certificates to ballots -------------------------------------------------------

  predicate InForce(p: Policy, pol: VotingPolicies) {
    p == pol.active || (pol.pending.Some? && p == pol.pending.value)
  }

  predicate BallotFor(v: Ballots, k: Key, b: Block, onlyStrong: bool) {
    Ballot(b, true) in BallotsOf(v, k) || (!onlyStrong && Ballot(b, false) in BallotsOf(v, k))
  }

  /** The voters announced by one signature of a certificate. */
  function Voters(s: QcSig, p: Policy): (bits: Bits)
    requires FormatOk(s, p)
    ensures |bits| == |p.finalizers|
  {
    seq(|p.finalizers|, i requires 0 <= i < |p.finalizers| => Bit(s.strongVotes, i) || Bit(s.weakVotes, i))
  }

  lemma {:induction false} VotersWeightTo(s: QcSig, p: Policy, n: nat)
    requires FormatOk(s, p) && n <= |p.finalizers|
    ensures WeightTo(p.finalizers, Voters(s, p), n) ==
      (if s.strongVotes.Some? then WeightTo(p.finalizers, s.strongVotes.value, n) else 0) +
      (if s.weakVotes.Some? then WeightTo(p.finalizers, s.weakVotes.value, n) else 0)
  {
    if n == 0 {
    } else {
      VotersWeightTo(s, p, n - 1);
      assert !(Bit(s.strongVotes, n - 1) && Bit(s.weakVotes, n - 1));
      assert Voters(s, p)[n - 1] == (Bit(s.strongVotes, n - 1) || Bit(s.weakVotes, n - 1));
    }
  }

  lemma SigIsQuorum(v: Ballots, s: QcSig, p: Policy, b: Block) returns (bits: Bits)
    requires FormatOk(s, p) && WeightsOk(s, p) && SignaturesOk(s, p, b) && SigCast(v, s)
    ensures |bits| == |p.finalizers| && Weight(p.finalizers, bits) >= p.threshold
    ensures forall i :: 0 <= i < |bits| && bits[i] ==> BallotFor(v, p.finalizers[i].key, b, SigIsStrong(s))
  {
    bits := Voters(s, p);
    var n := |bits|;
    VotersWeightTo(s, p, n);
    forall i | 0 <= i < n && bits[i] ensures BallotFor(v, p.finalizers[i].key, b, SigIsStrong(s)) {
      if Bit(s.strongVotes, i) {
        BitIsSigned(p.finalizers, s.strongVotes, b, true, n, i);
        assert Cast(v, Signature(p.finalizers[i].key, b, true));
      } else {
        BitIsSigned(p.finalizers, s.weakVotes, b, false, n, i);
        assert Cast(v, Signature(p.finalizers[i].key, b, false));
      }
    }
  }

  /** A verified certificate yields a quorum of ballots in each policy in force. */
  lemma QcIsQuorum(v: Ballots, b: Block, q: Qc, p: Policy) returns (bits: Bits)
    requires Valid(b) && QcFor(v, b, q) && InForce(p, PoliciesOf(Of(b)))
    ensures |bits| == |p.finalizers| && Weight(p.finalizers, bits) >= p.threshold
    ensures forall i :: 0 <= i < |bits| && bits[i] ==> BallotFor(v, p.finalizers[i].key, b, IsStrong(q))
  {
    hide State, FormatOk, WeightsOk, SignaturesOk, SigCast;
    if p == PoliciesOf(Of(b)).active {
      bits := SigIsQuorum(v, q.active, p, b);
    } else {
      bits := SigIsQuorum(v, q.pending.value, p, b);
    }
  }

  /** Two certified blocks with a trusted policy in common share an honest voter. */
  lemma HonestVoterInBoth(v: Ballots, honest: set<Key>, b: Block, bq: Qc, c: Block, cq: Qc, p: Policy) returns (k: Key)
    requires Valid(b) && QcFor(v, b, bq) && InForce(p, PoliciesOf(Of(b)))
    requires Valid(c) && QcFor(v, c, cq) && InForce(p, PoliciesOf(Of(c)))
    requires Trusted(p, honest)
    ensures k in honest && BallotFor(v, k, b, IsStrong(bq)) && BallotFor(v, k, c, false)
  {
    hide State, QcFor;
    var x := QcIsQuorum(v, b, bq, p);
    var y := QcIsQuorum(v, c, cq, p);
    var i := HonestOverlap(p, x, y, honest);
    k := p.finalizers[i].key;
  }

  // ---- policies across a fork --------------------------------------------------------------

  /** Two blocks whose last final blocks both lie at or below a common ancestor are voted
      on under a common policy: the one pending at that ancestor, or else its active one. */
  lemma CommonPolicy(d: Block, b: Block, c: Block) returns (p: Policy)
    requires Valid(b) && Anc(d, b) && Num(LibBlock(b)) <= Num(d)
    requires Valid(c) && Anc(d, c) && Num(LibBlock(c)) <= Num(d)
    ensures InForce(p, PoliciesOf(Of(b))) && InForce(p, PoliciesOf(Of(c)))
  {
    hide State, LibBlock;
    PolicyWindow(d, b);
    PolicyWindow(d, c);
    p := if PendingAt(d).Some? then PendingAt(d).value.policy else ActiveAt(d);
  }

  // ---- the argument ------------------------------------------------------------------------

  /** A final block is the root, or what a strongly certified block below the claim names. */
  lemma FinalIsSealed(v: Ballots, root: Block, b: Block) returns (x: Block)
    requires Accepted(v, root, b)
    ensures LibBlock(b) == root ||
      (StronglyCertified(v, x) && Accepted(v, root, x) && Anc(x, QcBlock(b)) && LibBlock(b) == QcBlock(x))
    ensures Grounded(v, root, LibBlock(b))
  {
    hide State, LibBlock, QcFor;
    AcceptedAncestor(v, root, b, b);
    LibIsFromStrongClaim(b);
    var y := StrongClaimer(b);
    x := y;
    if y.Next? {
      AcceptedAncestor(v, root, y, b);
      ClaimsAreBacked(v, root, y);
      x := QcBlock(y);
      ClaimsAreBacked(v, root, x);
    } else {
      RootIsLowest(b);
      AcceptedAncestor(v, root, root, b);
    }
  }

  /** One honest finalizer never votes for two blocks of the same time. */
  lemma OneVotePerTime(v: Ballots, root: Block, honest: set<Key>, k: Key, b: Block, c: Block)
    requires HonestDisciplined(v, root, honest) && k in honest
    requires BallotFor(v, k, b, false) && BallotFor(v, k, c, false)
    requires b.timestamp == c.timestamp
    ensures b == c
  {
    hide Accepted, LockHeld, Anc, QcTime, ChainOk;
    var bs := BallotsOf(v, k);
    var i :| 0 <= i < |bs| && bs[i].block == b;
    var j :| 0 <= j < |bs| && bs[j].block == c;
    assert i < j ==> PairOk(v, root, bs[i], bs[j]);
    assert j < i ==> PairOk(v, root, bs[j], bs[i]);
  }

  /** Two certified blocks of the same time on a fork with a common policy are one block. */
  lemma SameTimeSameBlock(v: Ballots, root: Block, honest: set<Key>, d: Block, b: Block, c: Block)
    requires HonestDisciplined(v, root, honest) && PoliciesTrusted(v, root, honest)
    requires Accepted(v, root, b) && Certified(v, b)
    requires Accepted(v, root, c) && Certified(v, c)
    requires Anc(d, b) && Num(LibBlock(b)) <= Num(d)
    requires Anc(d, c) && Num(LibBlock(c)) <= Num(d)
    requires b.timestamp == c.timestamp
    ensures b == c
  {
    hide State, LibBlock, QcFor, HonestDisciplined, Trusted;
    var p := CommonPolicy(d, b, c);
    var bq :| QcFor(v, b, bq);
    var cq :| QcFor(v, c, cq);
    var k := HonestVoterInBoth(v, honest, b, bq, c, cq, p);
    OneVotePerTime(v, root, honest, k, b, c);
  }

  /** An honest finalizer that voted strong on `b` and at all on `c` either held the lock when
      voting for `c`, or voted for `c` first and then `b` vouches for it. */
  lemma VoterIsBound(v: Ballots, root: Block, honest: set<Key>, k: Key, b: Block, c: Block) returns (l: Block)
    requires HonestDisciplined(v, root, honest) && k in honest
    requires ChainOk(b) && b != c
    requires BallotFor(v, k, b, true) && BallotFor(v, k, c, false)
    ensures LockHeld(v, root, b, c, l) || c.timestamp <= QcTime(b) || Anc(c, b)
  {
    hide LockHeld, QcTime, Accepted, Anc, ChainOk;
    var bs := BallotsOf(v, k);
    var i :| 0 <= i < |bs| && bs[i] == Ballot(b, true);
    var j :| 0 <= j < |bs| && bs[j].block == c;
    l := b;
    if i < j {
      assert PairOk(v, root, bs[i], bs[j]);
      l :| LockHeld(v, root, b, c, l);
    } else {
      assert PairOk(v, root, bs[j], bs[i]);
    }
  }

  /** A strongly certified block and a conflicting certified one: the honest voter they
      share must have held a lock that `c` respects. */
  lemma ConflictHoldsLock(v: Ballots, root: Block, honest: set<Key>, d: Block, b: Block, c: Block) returns (l: Block)
    requires HonestDisciplined(v, root, honest) && PoliciesTrusted(v, root, honest)
    requires Accepted(v, root, b) && StronglyCertified(v, b)
    requires Accepted(v, root, c) && Certified(v, c)
    requires Anc(d, b) && Num(LibBlock(b)) <= Num(d)
    requires Anc(d, c) && Num(LibBlock(c)) <= Num(d)
    requires !Anc(c, b) && c.timestamp >= QcTime(b) && c != QcBlock(b)
    requires Anc(d, QcBlock(b)) && Grounded(v, root, QcBlock(b)) && QcBlock(b) != root
    ensures LockHeld(v, root, b, c, l)
  {
    hide State, LibBlock, QcFor, HonestDisciplined, Trusted, LockHeld;
    var p := CommonPolicy(d, b, c);
    var bq :| IsStrong(bq) && QcFor(v, b, bq);
    var cq :| QcFor(v, c, cq);
    var k := HonestVoterInBoth(v, honest, b, bq, c, cq, p);
    l := VoterIsBound(v, root, honest, k, b, c);
    if !LockHeld(v, root, b, c, l) {
      LibMonotone(QcBlock(b), b);
      SameTimeSameBlock(v, root, honest, d, QcBlock(b), c);
      assert false;
    }
  }

  /** Facts about a conflict between `b` and `c`: `b`'s claimed block lies strictly above the
      fork point, and neither block is an ancestor of the other. */
  lemma ConflictShape(b: Block, c: Block) returns (d: Block)
    requires ChainOk(b) && ChainOk(c) && Root(b) == Root(c)
    requires !Anc(QcBlock(b), c) && c.timestamp >= QcTime(b)
    ensures d == ForkPoint(b, c)
    ensures Anc(d, b) && Anc(d, c) && Anc(d, QcBlock(b)) && d != QcBlock(b)
    ensures !Anc(c, b) && !Anc(b, c) && c.Next? && QcBlock(b) != Root(b)
  {
    var q := QcBlock(b);
    d := ForkPoint(b, c);
    RootIsLowest(c);
    if Anc(c, b) { AncLinear(q, c, b); assert false; }
    if Anc(b, c) { AncTransitive(q, b, c); assert false; }
    if Num(q) <= Num(d) {
      AncLinear(q, d, b);
      AncTransitive(q, d, c);
      assert false;
    }
    AncLinear(d, q, b);
    AncOrder(q, b);
    RootIsLowest(q);
    if c.Genesis? { RootIsLowest(b); assert false; }
  }

  /** The heart of the matter. Once `b` is strongly certified, every grounded block that is
      not older than the block `b` claims is a descendant of that block. */
  lemma {:induction false} FinalBlockIsExtended(v: Ballots, root: Block, honest: set<Key>, b: Block, c: Block)
    requires HonestDisciplined(v, root, honest) && PoliciesTrusted(v, root, honest)
    requires Accepted(v, root, b) && StronglyCertified(v, b)
    requires Grounded(v, root, c) && c.timestamp >= QcTime(b)
    ensures Anc(QcBlock(b), c)
    decreases b.timestamp + c.timestamp
  {
    hide State, LibBlock, QcFor, HonestDisciplined, PoliciesTrusted, Certified, StronglyCertified;
    AcceptedAncestor(v, root, b, b);
    AcceptedAncestor(v, root, c, c);
    var q := QcBlock(b);
    if Anc(q, c) {
    } else {
      var d := ConflictShape(b, c);
      AncOrder(q, b);
      ClaimsAreBacked(v, root, b);
      LibBelowFork(v, root, honest, b, c, d);
      OtherLibBelowFork(v, root, honest, b, c, d);
      var l := ConflictHoldsLock(v, root, honest, d, b, c);
      AncOrder(l, c);
      FinalBlockIsExtended(v, root, honest, b, l);
      AncTransitive(q, l, c);
    }
  }

  /** What `b` holds final is no further than the fork. */
  lemma {:induction false} LibBelowFork(v: Ballots, root: Block, honest: set<Key>, b: Block, c: Block, d: Block)
    requires HonestDisciplined(v, root, honest) && PoliciesTrusted(v, root, honest)
    requires Accepted(v, root, b) && b.Next? && Grounded(v, root, c) && c.timestamp >= QcTime(b)
    requires Root(b) == Root(c) == root && d == ForkPoint(b, c)
    ensures Num(LibBlock(b)) <= Num(d)
    decreases b.timestamp + c.timestamp, 0
  {
    hide State, LibBlock, QcFor, HonestDisciplined, PoliciesTrusted, Certified, StronglyCertified;
    var x := FinalIsSealed(v, root, b);
    var f := LibBlock(b);
    LibIsAncestor(b);
    RootIsLowest(c);
    if f != root {
      AncOrder(QcBlock(b), b);
      AncOrder(x, QcBlock(b));
      AncOrder(QcBlock(x), x);
      FinalBlockIsExtended(v, root, honest, x, c);
    }
    ForkPointIsHighest(b, c, f);
    AncOrder(d, b);
    AncOrder(f, d);
  }

  /** What the conflicting block holds final is no further than the fork either. */
  lemma {:induction false} OtherLibBelowFork(v: Ballots, root: Block, honest: set<Key>, b: Block, c: Block, d: Block)
    requires HonestDisciplined(v, root, honest) && PoliciesTrusted(v, root, honest)
    requires Accepted(v, root, b) && b.Next? && StronglyCertified(v, b)
    requires Grounded(v, root, c) && c.Next? && c.timestamp >= QcTime(b) && !Anc(QcBlock(b), c)
    requires Grounded(v, root, QcBlock(b))
    requires Root(b) == Root(c) == root && d == ForkPoint(b, c)
    ensures Num(LibBlock(c)) <= Num(d)
    decreases b.timestamp + c.timestamp, 0
  {
    hide State, LibBlock, QcFor, HonestDisciplined, PoliciesTrusted, Certified, StronglyCertified;
    var x := FinalIsSealed(v, root, c);
    var m, q := LibBlock(c), QcBlock(b);
    LibIsAncestor(c);
    AncOrder(m, c);
    AncOrder(q, b);
    RootIsLowest(b);
    if m != root {
      AncOrder(QcBlock(c), c);
      AncOrder(x, QcBlock(c));
      if m.timestamp >= q.timestamp {
        FinalBlockIsExtended(v, root, honest, b, m);
        AncTransitive(q, m, c);
        assert false;
      }
      FinalBlockIsExtended(v, root, honest, x, q);
      AncTransitive(m, q, b);
    }
    ForkPointIsHighest(b, c, m);
    AncOrder(d, c);
    AncOrder(m, d);
  }

  /** Safety. No two accepted blocks hold conflicting blocks final. */
  lemma NoConflictingFinality(v: Ballots, root: Block, honest: set<Key>, b: Block, c: Block)
    requires HonestDisciplined(v, root, honest) && PoliciesTrusted(v, root, honest)
    requires Accepted(v, root, b) && Accepted(v, root, c)
    ensures Anc(LibBlock(b), LibBlock(c)) || Anc(LibBlock(c), LibBlock(b))
  {
    hide State, LibBlock, QcFor, HonestDisciplined, PoliciesTrusted, Certified, StronglyCertified;
    var x := FinalIsSealed(v, root, b);
    var y := FinalIsSealed(v, root, c);
    var f, g := LibBlock(b), LibBlock(c);
    AcceptedAncestor(v, root, f, f);
    AcceptedAncestor(v, root, g, g);
    RootIsLowest(f);
    RootIsLowest(g);
    if f == root || g == root {
    } else if f.timestamp <= g.timestamp {
      FinalBlockIsExtended(v, root, honest, x, g);
    } else {
      FinalBlockIsExtended(v, root, honest, y, f);
    }
  }
}
