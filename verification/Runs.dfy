/**
  Whole runs of the protocol. Honest finalizers follow the code of `decide_vote`; faulty
  ones sign anything at any time; blocks are any that the ballots justify. In every
  reachable state the honest finalizers have kept the voting discipline, so finality is
  never contradicted.
 */
module Runs {
  import opened Options
  import opened Policies
  import opened Blocks
  import opened HeaderStates
  import opened ChainTracking
  import opened Certificates
  import opened Finalizers
  import opened Protocol
  import opened Safety

  // ---- one finalizer ----------------------------------------------------------------------

  /** What the safety information remembers of a ballot, `last` being the latest one. */
  ghost predicate Remembered(f: Fsi, last: Block, x: Ballot)
    requires ChainOk(last)
  {
    && ChainOk(x.block)
    && x.block.timestamp <= last.timestamp
    && (x.strong ==> QcTime(x.block) <= Time(f.lock))
    && (|| Anc(x.block, last)
        || x.block.timestamp <= f.otherBranchLatestTime
        || x.block.timestamp <= QcTime(last))
  }

  ghost predicate LockGrounded(v: Ballots, root: Block, f: Fsi) {
    f.lock.Some? && Grounded(v, root, f.lock.value.id) && f.lock.value == RefOf(f.lock.value.id)
  }

  ghost predicate LastVoteMatches(v: Ballots, root: Block, f: Fsi, bs: seq<Ballot>) {
    if bs == [] then f.lastVote.None?
    else
      var last := bs[|bs| - 1].block;
      Accepted(v, root, last) && f.lastVote == Some(RefOf(last))
  }

  /** A time kept for other branches is that of a ballot off the branch of the last one. */
  ghost predicate OtherIsReal(f: Fsi, bs: seq<Ballot>) {
    f.otherBranchLatestTime == 0 || exists i :: 0 <= i < |bs| && OffBranchAt(f.otherBranchLatestTime, bs, i)
  }

  ghost predicate OffBranchAt(time: nat, bs: seq<Ballot>, i: nat)
    requires i < |bs|
  {
    bs[i].block.timestamp == time && !Anc(bs[i].block, bs[|bs| - 1].block)
  }

  /** A lock is what a strong ballot claims, or the LIB the finalizer started from. */
  ghost predicate LockIsEarned(v: Ballots, root: Block, f: Fsi, bs: seq<Ballot>) {
    f.lock.Some? &&
      (|| (exists i :: 0 <= i < |bs| && LockedBy(f.lock.value.id, bs[i]))
       || (exists head :: StartedFrom(v, root, f.lock.value.id, head)))
  }

  ghost predicate LockedBy(l: Block, x: Ballot) {
    x.strong && ChainOk(x.block) && QcBlock(x.block) == l
  }

  ghost predicate StartedFrom(v: Ballots, root: Block, l: Block, head: Block) {
    Accepted(v, root, head) && LibBlock(head) == l
  }

  /** The three fields sum up the whole voting history. */
  ghost predicate FsiMatches(v: Ballots, root: Block, f: Fsi, bs: seq<Ballot>) {
    && LockGrounded(v, root, f) && LockIsEarned(v, root, f, bs)
    && LastVoteMatches(v, root, f, bs) && OtherIsReal(f, bs)
    && forall i :: 0 <= i < |bs| ==> Remembered(f, bs[|bs| - 1].block, bs[i])
  }

  function BallotOf(f: Fsi, b: Block): (x: Ballot)
    requires ChainOk(b)
  {
    Ballot(b, Vote(f, b) == StrongVote)
  }

  /** A later block on the branch of `last` inherits what is remembered. */
  lemma BranchInherits(f: Fsi, last: Block, b: Block, x: Ballot)
    requires ChainOk(b) && Anc(last, b) && ChainOk(last) && Remembered(f, last, x)
    ensures Anc(x.block, b) || x.block.timestamp <= f.otherBranchLatestTime || x.block.timestamp <= QcTime(b)
  {
    QcBlockMonotone(last, b);
    if Anc(x.block, last) { AncTransitive(x.block, last, b); }
  }

  lemma LockIsHeld(v: Ballots, root: Block, f: Fsi, b: Block, x: Block) returns (l: Block)
    requires Accepted(v, root, b) && b.Next? && MayVote(f, b) && LockGrounded(v, root, f)
    requires ChainOk(x) && QcTime(x) <= Time(f.lock)
    ensures LockHeld(v, root, x, b, l)
  {
    hide State, LibBlock, Certified;
    ClaimsAreBacked(v, root, b);
    l := if QcTime(b) > Time(f.lock) then QcBlock(b) else f.lock.value.id;
  }

  /** The new ballot goes together with each one remembered. */
  lemma VoteFitsHistory(v: Ballots, root: Block, f: Fsi, last: Block, b: Block, x: Ballot)
    requires Accepted(v, root, b) && b.Next? && Vote(f, b) != NoVote
    requires LockGrounded(v, root, f)
    requires Valid(last) && f.lastVote == Some(RefOf(last)) && Remembered(f, last, x)
    ensures PairOk(v, root, x, BallotOf(f, b))
    ensures Valid(QcBlock(b)) && Remembered(AfterVote(f, b), b, x)
  {
    hide State, LibBlock, LockHeld, LockGrounded, Anc;
    ValidAncestor(QcBlock(b), b);
    if Anc(last, b) { BranchInherits(f, last, b, x); }
    if x.strong {
      var l := LockIsHeld(v, root, f, b, x.block);
    }
  }

  lemma VoteKeepsLock(v: Ballots, root: Block, f: Fsi, b: Block)
    requires Accepted(v, root, b) && b.Next? && Vote(f, b) != NoVote && LockGrounded(v, root, f)
    ensures Valid(QcBlock(b)) && LockGrounded(v, root, AfterVote(f, b))
    ensures AfterVote(f, b).lastVote == Some(RefOf(b))
    ensures Remembered(AfterVote(f, b), b, BallotOf(f, b))
  {
    hide State, LibBlock, Certified;
    ClaimsAreBacked(v, root, b);
  }

  lemma DisciplinedAppend(v: Ballots, root: Block, bs: seq<Ballot>, y: Ballot)
    requires Disciplined(v, root, bs) && Accepted(v, root, y.block)
    requires forall i :: 0 <= i < |bs| ==> PairOk(v, root, bs[i], y)
    ensures Disciplined(v, root, bs + [y])
  {
    hide PairOk, Accepted;
  }

  lemma FsiAppend(v: Ballots, root: Block, f: Fsi, bs: seq<Ballot>, y: Ballot)
    requires LockGrounded(v, root, f) && Accepted(v, root, y.block) && f.lastVote == Some(RefOf(y.block))
    requires LockIsEarned(v, root, f, bs + [y]) && OtherIsReal(f, bs + [y])
    requires forall i :: 0 <= i < |bs| ==> Remembered(f, y.block, bs[i])
    requires Remembered(f, y.block, y)
    ensures FsiMatches(v, root, f, bs + [y])
  {
    hide State, Remembered, LockGrounded, LockIsEarned, OtherIsReal;
    var cs := bs + [y];
    assert cs[|cs| - 1] == y;
    assert forall i :: 0 <= i < |cs| ==> cs[i] == y || cs[i] == bs[i];
  }

  // A strict ancestor later than the claimed block is in sight.
  lemma LaterIsSeen(b: Block, a: Block)
    requires ChainOk(b) && Anc(a, b) && a != b && a.timestamp > QcTime(b)
    ensures Sees(b, a)
  {
    hide LibBlock, QcBlock, ChainOk, Anc, Root;
    LibIsAncestor(b);
    AncOrder(a, b);
    AncLinear(QcBlock(b), a, b);
    AncOrder(QcBlock(b), a);
  }

  /** Voting keeps the time of other branches real: what is off the branch stays off it, and a
      last vote not in sight is off it. */
  lemma VoteKeepsOther(v: Ballots, root: Block, f: Fsi, bs: seq<Ballot>, b: Block)
    requires FsiMatches(v, root, f, bs) && Valid(b) && Valid(QcBlock(b)) && Vote(f, b) != NoVote
    ensures OtherIsReal(AfterVote(f, b), bs + [BallotOf(f, b)])
  {
    hide State, LibBlock, LockGrounded, LockIsEarned, Accepted;
    var cs := bs + [BallotOf(f, b)];
    assert cs[|cs| - 1].block == b;
    if Vote(f, b) == WeakVote {
      var last := bs[|bs| - 1].block;
      assert cs[|bs| - 1] == bs[|bs| - 1];
      if SeesRef(b, f.lastVote) {
        if f.otherBranchLatestTime != 0 {
          var i :| 0 <= i < |bs| && OffBranchAt(f.otherBranchLatestTime, bs, i);
          assert Remembered(f, last, bs[i]) && cs[i] == bs[i];
          if Anc(bs[i].block, b) { AncLinear(bs[i].block, last, b); }
          assert OffBranchAt(f.otherBranchLatestTime, cs, i);
        }
      } else {
        if Anc(last, b) { LaterIsSeen(b, last); }
        assert OffBranchAt(last.timestamp, cs, |bs| - 1);
      }
    }
  }

  /** The lock moves only with a strong vote that claims something later, and then to that. */
  lemma VoteEarnsLock(v: Ballots, root: Block, f: Fsi, bs: seq<Ballot>, b: Block)
    requires LockIsEarned(v, root, f, bs) && Valid(b) && Valid(QcBlock(b)) && Vote(f, b) != NoVote
    ensures LockIsEarned(v, root, AfterVote(f, b), bs + [BallotOf(f, b)])
    ensures if Vote(f, b) == StrongVote && QcTime(b) > Time(f.lock) then AfterVote(f, b).lock == Some(RefOf(QcBlock(b)))
            else AfterVote(f, b).lock == f.lock
  {
    hide State, LibBlock, Accepted, QcBlock;
    var y := BallotOf(f, b);
    var cs, g := bs + [y], AfterVote(f, b);
    if g.lock != f.lock {
      assert LockedBy(g.lock.value.id, cs[|bs|]);
    } else if i :| 0 <= i < |bs| && LockedBy(f.lock.value.id, bs[i]) {
      assert LockedBy(g.lock.value.id, cs[i]);
    }
  }

  /** Voting by the rule keeps the discipline, and keeps the safety information a faithful
      summary of it. */
  lemma VoteKeepsDiscipline(v: Ballots, root: Block, f: Fsi, bs: seq<Ballot>, b: Block)
    requires Disciplined(v, root, bs) && FsiMatches(v, root, f, bs)
    requires Accepted(v, root, b) && b.Next? && Vote(f, b) != NoVote
    ensures Disciplined(v, root, bs + [BallotOf(f, b)])
    ensures Valid(QcBlock(b)) && FsiMatches(v, root, AfterVote(f, b), bs + [BallotOf(f, b)])
  {
    hide State, PairOk, Remembered, LockGrounded, LockIsEarned, OtherIsReal, AfterVote, Vote, Disciplined;
    VoteKeepsLock(v, root, f, b);
    var y := BallotOf(f, b);
    forall i | 0 <= i < |bs|
      ensures PairOk(v, root, bs[i], y) && Remembered(AfterVote(f, b), b, bs[i])
    {
      VoteFitsHistory(v, root, f, bs[|bs| - 1].block, b, bs[i]);
    }
    DisciplinedAppend(v, root, bs, y);
    VoteKeepsOther(v, root, f, bs, b);
    VoteEarnsLock(v, root, f, bs, b);
    FsiAppend(v, root, AfterVote(f, b), bs, y);
  }

  // ---- what a vote says -----------------------------------------------------------------------

  /** Every ballot later than the block that `b` claims is on the branch of `b`. */
  ghost predicate NothingElsewhere(bs: seq<Ballot>, b: Block)
    requires ChainOk(b)
  {
    forall i :: 0 <= i < |bs| && bs[i].block.timestamp > QcTime(b) ==> Anc(bs[i].block, b)
  }

  /** A faithful record votes if and only if the block is later than every ballot and either
      claims something later than the lock or extends it. */
  lemma MayVoteExactly(v: Ballots, root: Block, f: Fsi, bs: seq<Ballot>, b: Block)
    requires FsiMatches(v, root, f, bs) && ChainOk(b)
    ensures f.lock.Some?
    ensures Vote(f, b) != NoVote <==>
      && (forall i :: 0 <= i < |bs| ==> bs[i].block.timestamp < b.timestamp)
      && (QcTime(b) > f.lock.value.id.timestamp || Sees(b, f.lock.value.id))
  {
    hide State, LibBlock, LockIsEarned, OtherIsReal, Accepted, Certified, Anc, ChainOk;
    if bs != [] {
      var last := bs[|bs| - 1].block;
      assert forall i :: 0 <= i < |bs| ==> Remembered(f, last, bs[i]);
    }
  }

  /** What a strong vote swears is true, and it is withheld only where it is not: among the
      blocks it may vote on, a faithful record votes strong if and only if every ballot later
      than the claimed block is on the same branch. */
  lemma VoteIsStrongExactly(v: Ballots, root: Block, f: Fsi, bs: seq<Ballot>, b: Block)
    requires FsiMatches(v, root, f, bs) && ChainOk(b)
    ensures Vote(f, b) == StrongVote <==> Vote(f, b) != NoVote && NothingElsewhere(bs, b)
  {
    hide State, LibBlock, LockIsEarned, LockGrounded, Accepted, Sees, QcBlock;
    if Vote(f, b) == StrongVote {
      StrongMeansHere(v, root, f, bs, b);
    } else if Vote(f, b) == WeakVote {
      WeakMeansElsewhere(v, root, f, bs, b);
    }
  }

  lemma StrongMeansHere(v: Ballots, root: Block, f: Fsi, bs: seq<Ballot>, b: Block)
    requires FsiMatches(v, root, f, bs) && ChainOk(b) && Vote(f, b) == StrongVote
    ensures NothingElsewhere(bs, b)
  {
    hide State, LibBlock, Root, LockIsEarned, LockGrounded, OtherIsReal;
    if bs != [] {
      var last := bs[|bs| - 1].block;
      forall i | 0 <= i < |bs| && bs[i].block.timestamp > QcTime(b) ensures Anc(bs[i].block, b) {
        assert Remembered(f, last, bs[i]);
        if SeesRef(b, f.lastVote) { BranchInherits(f, last, b, bs[i]); }
      }
    }
  }

  lemma WeakMeansElsewhere(v: Ballots, root: Block, f: Fsi, bs: seq<Ballot>, b: Block)
    requires FsiMatches(v, root, f, bs) && ChainOk(b) && Vote(f, b) == WeakVote
    ensures !NothingElsewhere(bs, b)
  {
    hide State, LibBlock, LockIsEarned, LockGrounded, Accepted, QcBlock, Root, ChainOk;
    var last := bs[|bs| - 1].block;
    assert Remembered(f, last, bs[|bs| - 1]);
    if Anc(last, b) {
      LaterIsSeen(b, last);
      var i :| 0 <= i < |bs| && OffBranchAt(f.otherBranchLatestTime, bs, i);
      assert Remembered(f, last, bs[i]);
      if Anc(bs[i].block, b) { AncLinear(bs[i].block, last, b); }
    }
  }

  // ---- the pool only grows ----------------------------------------------------------------

  ghost predicate Grows(v: Ballots, w: Ballots) {
    forall k :: BallotsOf(v, k) <= BallotsOf(w, k)
  }

  lemma ProvesGrows(v: Ballots, w: Ballots, q: Qc, pol: VotingPolicies, b: Block)
    requires Grows(v, w) && Proves(v, q, pol, b)
    ensures Proves(w, q, pol, b)
  {
    hide BasicOk, QcSignaturesOk;
    forall s: Signature | Cast(v, s) ensures Cast(w, s) {
      assert BallotsOf(v, s.key) <= BallotsOf(w, s.key);
    }
  }

  lemma {:induction false} AcceptedGrows(v: Ballots, w: Ballots, root: Block, b: Block)
    requires Grows(v, w) && Accepted(v, root, b)
    ensures Accepted(w, root, b)
  {
    hide State, Proves, GetFinalizerPoliciesAt, Grows;
    if b.Genesis? {
    } else {
      AcceptedGrows(v, w, root, b.parent);
      if b.claim != Claim(b.parent) {
        var q :| ClaimProven(v, b, q);
        ClaimCovered(Of(b.parent).core, b);
        ProvesGrows(v, w, q, GetFinalizerPoliciesAt(b.parent, Of(b.parent), b.claim.num).value,
          RefFor(b.parent, Of(b.parent), b.claim.num).id);
        assert ClaimProven(w, b, q);
      }
    }
  }

  lemma GroundedGrows(v: Ballots, w: Ballots, root: Block, x: Block)
    requires Grows(v, w) && Grounded(v, root, x)
    ensures Grounded(w, root, x)
  {
    hide State, Proves, Grows;
    AcceptedGrows(v, w, root, x);
    if x != root {
      var q :| QcFor(v, x, q);
      ProvesGrows(v, w, q, PoliciesOf(Of(x)), x);
      assert QcFor(w, x, q);
    }
  }

  lemma PairGrows(v: Ballots, w: Ballots, root: Block, x: Ballot, y: Ballot)
    requires Grows(v, w) && PairOk(v, root, x, y)
    ensures PairOk(w, root, x, y)
  {
    hide Grounded, Grows, Anc;
    if x.strong {
      var l :| LockHeld(v, root, x.block, y.block, l);
      GroundedGrows(v, w, root, l);
      assert LockHeld(w, root, x.block, y.block, l);
    }
  }

  lemma DisciplineGrows(v: Ballots, w: Ballots, root: Block, bs: seq<Ballot>)
    requires Grows(v, w) && Disciplined(v, root, bs)
    ensures Disciplined(w, root, bs)
  {
    hide PairOk, Accepted, Grows;
    forall i | 0 <= i < |bs| ensures Accepted(w, root, bs[i].block) {
      AcceptedGrows(v, w, root, bs[i].block);
    }
    forall i, j | 0 <= i < j < |bs| ensures PairOk(w, root, bs[i], bs[j]) {
      PairGrows(v, w, root, bs[i], bs[j]);
    }
  }

  lemma EarnedGrows(v: Ballots, w: Ballots, root: Block, f: Fsi, bs: seq<Ballot>)
    requires Grows(v, w) && LockIsEarned(v, root, f, bs)
    ensures LockIsEarned(w, root, f, bs)
  {
    hide Grows, Accepted, LibBlock, LockedBy;
    if head :| StartedFrom(v, root, f.lock.value.id, head) {
      AcceptedGrows(v, w, root, head);
      assert StartedFrom(w, root, f.lock.value.id, head);
    }
  }

  lemma FsiGrows(v: Ballots, w: Ballots, root: Block, f: Fsi, bs: seq<Ballot>)
    requires Grows(v, w) && FsiMatches(v, root, f, bs)
    ensures FsiMatches(w, root, f, bs)
  {
    hide State, Certified, Grows, Remembered, OtherIsReal;
    GroundedGrows(v, w, root, f.lock.value.id);
    EarnedGrows(v, w, root, f, bs);
    if bs != [] {
      AcceptedGrows(v, w, root, bs[|bs| - 1].block);
    }
  }

  // ---- the system -------------------------------------------------------------------------

  datatype System = System(ballots: Ballots, fsi: map<Key, Fsi>)

  /** Start: a finalizer without safety information is given the default, locked on the LIB
      of an accepted block. HonestVote: it votes as `decide_vote` says. Evidence: a QC
      showing its own strong vote reaches it. Recover: it has lost its safety information,
      is given the default, and evidence of its latest vote, a strong one newer than that
      default, reaches it before it votes. FaultyVote: a faulty key signs anything. */
  datatype Event =
    | Start(key: Key, head: Block)
    | HonestVote(key: Key, block: Block)
    | Evidence(key: Key, block: Block)
    | Recover(key: Key, head: Block, block: Block)
    | FaultyVote(key: Key, ballot: Ballot)

  ghost predicate Enabled(s: System, root: Block, honest: set<Key>, e: Event) {
    match e
    case Start(k, head) => k in honest && k !in s.fsi && Accepted(s.ballots, root, head)
    case HonestVote(k, b) => k in honest && k in s.fsi && b.Next? && Accepted(s.ballots, root, b)
    case Evidence(k, b) =>
      k in honest && k in s.fsi && b.Next? && Accepted(s.ballots, root, b)
      && Ballot(b, true) in BallotsOf(s.ballots, k)
    case Recover(k, head, b) =>
      && k in honest && b.Next? && Accepted(s.ballots, root, b) && Accepted(s.ballots, root, head)
      && IsLast(BallotsOf(s.ballots, k), Ballot(b, true)) && QcTime(b) > LibBlock(head).timestamp
    case FaultyVote(k, _) => k !in honest
  }

  predicate IsLast(bs: seq<Ballot>, x: Ballot) {
    bs != [] && bs[|bs| - 1] == x
  }

  function AddBallot(v: Ballots, k: Key, x: Ballot): (w: Ballots) {
    v[k := BallotsOf(v, k) + [x]]
  }

  /** What `maybe_update_fsi` leaves behind. */
  function AfterEvidence(f: Fsi, b: Block): (g: Fsi)
    requires Valid(b) && Valid(QcBlock(b))
  {
    if QcTime(b) > Time(f.lock) && b.timestamp > Time(f.lastVote)
    then Fsi(Some(RefOf(b)), Some(RefOf(QcBlock(b))), 0)
    else f
  }

  ghost function After(s: System, root: Block, honest: set<Key>, e: Event): (t: System)
    requires Enabled(s, root, honest, e)
  {
    match e
    case Start(k, head) =>
      StartIsValid(s.ballots, root, head);
      s.(fsi := s.fsi[k := Fsi(None, Some(RefOf(LibBlock(head))), 0)])
    case HonestVote(k, b) =>
      ValidAncestor(QcBlock(b), b);
      if Vote(s.fsi[k], b) == NoVote then s
      else System(AddBallot(s.ballots, k, BallotOf(s.fsi[k], b)), s.fsi[k := AfterVote(s.fsi[k], b)])
    case Evidence(k, b) =>
      ValidAncestor(QcBlock(b), b);
      s.(fsi := s.fsi[k := AfterEvidence(s.fsi[k], b)])
    case Recover(k, head, b) =>
      ValidAncestor(QcBlock(b), b);
      StartIsValid(s.ballots, root, head);
      s.(fsi := s.fsi[k := AfterEvidence(Fsi(None, Some(RefOf(LibBlock(head))), 0), b)])
    case FaultyVote(k, x) => s.(ballots := AddBallot(s.ballots, k, x))
  }

  lemma StartIsValid(v: Ballots, root: Block, head: Block)
    requires Accepted(v, root, head)
    ensures Valid(LibBlock(head))
  {
    LibIsAncestor(head);
    ValidAncestor(LibBlock(head), head);
  }

  /** The inductive invariant: discipline, and every safety record faithful. */
  ghost predicate Good(s: System, root: Block, honest: set<Key>) {
    && HonestDisciplined(s.ballots, root, honest)
    && forall k :: k in honest ==> RecordGood(s, root, k)
  }

  ghost predicate RecordGood(s: System, root: Block, k: Key) {
    if k in s.fsi then FsiMatches(s.ballots, root, s.fsi[k], BallotsOf(s.ballots, k))
    else BallotsOf(s.ballots, k) == []
  }

  /** Nobody else is disturbed when one key's ballots grow. */
  lemma OthersUndisturbed(s: System, t: System, root: Block, honest: set<Key>, k: Key, x: Ballot)
    requires Good(s, root, honest) && t.ballots == AddBallot(s.ballots, k, x)
    requires forall j :: j in honest && j != k ==> (j in s.fsi <==> j in t.fsi) && (j in s.fsi ==> s.fsi[j] == t.fsi[j])
    ensures Grows(s.ballots, t.ballots)
    ensures forall j :: j in honest && j != k ==>
      Disciplined(t.ballots, root, BallotsOf(t.ballots, j)) && RecordGood(t, root, j)
  {
    hide Disciplined, FsiMatches;
    assert forall j :: j != k ==> BallotsOf(t.ballots, j) == BallotsOf(s.ballots, j);
    forall j | j in honest && j != k
      ensures Disciplined(t.ballots, root, BallotsOf(t.ballots, j)) && RecordGood(t, root, j)
    {
      DisciplineGrows(s.ballots, t.ballots, root, BallotsOf(s.ballots, j));
      assert RecordGood(s, root, j);
      if j in s.fsi {
        FsiGrows(s.ballots, t.ballots, root, s.fsi[j], BallotsOf(s.ballots, j));
      }
    }
  }

  lemma StartKeepsGood(s: System, root: Block, honest: set<Key>, k: Key, head: Block)
    requires Good(s, root, honest) && Enabled(s, root, honest, Start(k, head))
    ensures Good(After(s, root, honest, Start(k, head)), root, honest)
  {
    hide State, Disciplined, FsiMatches, LibBlock, Accepted;
    var t := After(s, root, honest, Start(k, head));
    DefaultFsiMatches(s.ballots, root, head);
    assert RecordGood(s, root, k);
    forall j | j in honest ensures RecordGood(t, root, j) {
      assert RecordGood(s, root, j);
    }
  }

  lemma StartIsEarned(v: Ballots, root: Block, head: Block)
    requires Accepted(v, root, head)
    ensures Valid(LibBlock(head)) && LockIsEarned(v, root, Fsi(None, Some(RefOf(LibBlock(head))), 0), [])
  {
    hide State, LibBlock, QcBlock;
    StartIsValid(v, root, head);
    assert StartedFrom(v, root, LibBlock(head), head);
  }

  lemma DefaultFsiMatches(v: Ballots, root: Block, head: Block)
    requires Accepted(v, root, head)
    ensures Valid(LibBlock(head)) && FsiMatches(v, root, Fsi(None, Some(RefOf(LibBlock(head))), 0), [])
  {
    hide State, LibBlock, Accepted, StronglyCertified, QcBlock, Anc, Valid, Root, LockIsEarned;
    StartIsValid(v, root, head);
    StartIsEarned(v, root, head);
    var x := FinalIsSealed(v, root, head);
  }

  lemma VoteKeepsGood(s: System, root: Block, honest: set<Key>, k: Key, b: Block)
    requires Good(s, root, honest) && Enabled(s, root, honest, HonestVote(k, b))
    ensures Good(After(s, root, honest, HonestVote(k, b)), root, honest)
  {
    hide State, Disciplined, FsiMatches, Vote, AfterVote;
    var t := After(s, root, honest, HonestVote(k, b));
    var f, bs := s.fsi[k], BallotsOf(s.ballots, k);
    if Vote(f, b) != NoVote {
      assert RecordGood(s, root, k);
      VoteKeepsDiscipline(s.ballots, root, f, bs, b);
      var y := BallotOf(f, b);
      OthersUndisturbed(s, t, root, honest, k, y);
      DisciplineGrows(s.ballots, t.ballots, root, bs + [y]);
      FsiGrows(s.ballots, t.ballots, root, t.fsi[k], bs + [y]);
    }
  }

  /** For a finalizer with intact safety information, evidence of its own votes is no news. */
  lemma EvidenceIsNoNews(v: Ballots, root: Block, f: Fsi, bs: seq<Ballot>, b: Block)
    requires FsiMatches(v, root, f, bs) && Ballot(b, true) in bs && Valid(b) && Valid(QcBlock(b))
    ensures AfterEvidence(f, b) == f
  {
    hide State, LockGrounded;
    var i :| 0 <= i < |bs| && bs[i] == Ballot(b, true);
    assert Remembered(f, bs[|bs| - 1].block, bs[i]);
  }

  lemma EvidenceKeepsGood(s: System, root: Block, honest: set<Key>, k: Key, b: Block)
    requires Good(s, root, honest) && Enabled(s, root, honest, Evidence(k, b))
    ensures Good(After(s, root, honest, Evidence(k, b)), root, honest)
  {
    hide State, Disciplined, FsiMatches, AfterEvidence;
    assert RecordGood(s, root, k);
    ValidAncestor(QcBlock(b), b);
    EvidenceIsNoNews(s.ballots, root, s.fsi[k], BallotsOf(s.ballots, k), b);
    var t := After(s, root, honest, Evidence(k, b));
    assert t.fsi == s.fsi;
  }

  // ---- recovery -----------------------------------------------------------------------------

  /** An earlier ballot of a disciplined history is remembered by what the last strong one
      leaves behind. */
  lemma RememberedByLast(v: Ballots, root: Block, x: Ballot, b: Block)
    requires PairOk(v, root, x, Ballot(b, true)) && Valid(b) && Valid(QcBlock(b))
    ensures Remembered(FromEvidence(b), b, x)
  {
    hide State;
    var q := QcBlock(x.block);
    AncOrder(q, x.block);
    if Anc(x.block, b) { QcBlockMonotone(x.block, b); }
  }

  /** What evidence of a strong vote on `b` leaves behind. */
  ghost function FromEvidence(b: Block): (f: Fsi)
    requires Valid(b) && Valid(QcBlock(b))
  {
    Fsi(Some(RefOf(b)), Some(RefOf(QcBlock(b))), 0)
  }

  lemma EvidenceIsGrounded(v: Ballots, root: Block, b: Block)
    requires Accepted(v, root, b)
    ensures Valid(b) && Valid(QcBlock(b)) && LockGrounded(v, root, FromEvidence(b))
  {
    hide State, LibBlock, Certified;
    AcceptedAncestor(v, root, b, b);
    ValidAncestor(QcBlock(b), b);
    ClaimsAreBacked(v, root, b);
  }

  lemma TimesRise(v: Ballots, root: Block, bs: seq<Ballot>, i: nat, j: nat)
    requires Disciplined(v, root, bs) && i < j < |bs|
    ensures bs[i].block.timestamp < bs[j].block.timestamp && PairOk(v, root, bs[i], bs[j])
  {
    hide Accepted, LockHeld;
  }

  lemma EvidenceIsEarned(v: Ballots, root: Block, bs: seq<Ballot>, i: nat)
    requires i < |bs| && bs[i].strong && Valid(bs[i].block) && Valid(QcBlock(bs[i].block))
    ensures LockIsEarned(v, root, FromEvidence(bs[i].block), bs)
  {
    hide State, LibBlock, QcBlock;
    assert LockedBy(QcBlock(bs[i].block), bs[i]);
  }

  /** Evidence of a strong vote rebuilds a lost record: what it leaves behind is faithful to
      the history if and only if that vote was the latest. */
  lemma RecordRestoredExactly(v: Ballots, root: Block, bs: seq<Ballot>, b: Block)
    requires Disciplined(v, root, bs) && Ballot(b, true) in bs
    ensures Valid(b) && Valid(QcBlock(b))
    ensures FsiMatches(v, root, FromEvidence(b), bs) <==> bs[|bs| - 1].block == b
  {
    hide State, Accepted, LockGrounded, LockIsEarned, Remembered, Disciplined, Valid, QcBlock, RefOf;
    var i :| 0 <= i < |bs| && bs[i] == Ballot(b, true);
    HistoryIsAccepted(v, root, bs, i);
    HistoryIsAccepted(v, root, bs, |bs| - 1);
    EvidenceIsGrounded(v, root, b);
    RefNamesBlock(b);
    RefNamesBlock(bs[|bs| - 1].block);
    EvidenceIsEarned(v, root, bs, i);
    if bs[|bs| - 1].block == b {
      if i < |bs| - 1 { TimesRise(v, root, bs, i, |bs| - 1); }
      AllRemembered(v, root, bs, b);
    }
  }

  lemma AllRemembered(v: Ballots, root: Block, bs: seq<Ballot>, b: Block)
    requires Disciplined(v, root, bs) && IsLast(bs, Ballot(b, true)) && Valid(b) && Valid(QcBlock(b))
    ensures forall j :: 0 <= j < |bs| ==> Remembered(FromEvidence(b), b, bs[j])
  {
    hide State, Disciplined, Remembered, PairOk, FromEvidence;
    forall j | 0 <= j < |bs| ensures Remembered(FromEvidence(b), b, bs[j]) {
      if j < |bs| - 1 {
        TimesRise(v, root, bs, j, |bs| - 1);
        RememberedByLast(v, root, bs[j], b);
      } else {
        SelfRemembered(b);
      }
    }
  }

  lemma HistoryIsAccepted(v: Ballots, root: Block, bs: seq<Ballot>, i: nat)
    requires Disciplined(v, root, bs) && i < |bs|
    ensures Accepted(v, root, bs[i].block) && Valid(bs[i].block)
  {
    hide PairOk, State;
  }

  lemma RefNamesBlock(b: Block)
    requires Valid(b)
    ensures RefOf(b).id == b
  {
  }

  lemma SelfRemembered(b: Block)
    requires Valid(b) && Valid(QcBlock(b))
    ensures Remembered(FromEvidence(b), b, Ballot(b, true))
  {
    hide State;
  }

  lemma RecoverKeepsGood(s: System, root: Block, honest: set<Key>, k: Key, head: Block, b: Block)
    requires Good(s, root, honest) && Enabled(s, root, honest, Recover(k, head, b))
    ensures Good(After(s, root, honest, Recover(k, head, b)), root, honest)
  {
    hide State, Disciplined, FsiMatches, LibBlock, Accepted;
    var t := After(s, root, honest, Recover(k, head, b));
    var bs := BallotsOf(s.ballots, k);
    assert Disciplined(s.ballots, root, bs) && bs[|bs| - 1] in bs;
    RecordRestoredExactly(s.ballots, root, bs, b);
    forall j | j in honest ensures RecordGood(t, root, j) {
      assert RecordGood(s, root, j);
    }
  }

  /** Every event, honest or faulty, keeps the invariant. */
  lemma EventKeepsGood(s: System, root: Block, honest: set<Key>, e: Event)
    requires Good(s, root, honest) && Enabled(s, root, honest, e)
    ensures Good(After(s, root, honest, e), root, honest)
    ensures Grows(s.ballots, After(s, root, honest, e).ballots)
  {
    hide Disciplined, FsiMatches, Vote, AfterVote, Accepted;
    match e
    case Start(k, head) => StartKeepsGood(s, root, honest, k, head);
    case HonestVote(k, b) => VoteKeepsGood(s, root, honest, k, b);
    case Evidence(k, b) => EvidenceKeepsGood(s, root, honest, k, b);
    case Recover(k, head, b) => RecoverKeepsGood(s, root, honest, k, head, b);
    case FaultyVote(k, x) => OthersUndisturbed(s, After(s, root, honest, e), root, honest, k, x);
  }

  // ---- runs -------------------------------------------------------------------------------

  ghost predicate Transition(s: System, t: System, root: Block, honest: set<Key>) {
    exists e :: Enabled(s, root, honest, e) && t == After(s, root, honest, e)
  }

  ghost predicate Run(root: Block, honest: set<Key>, ss: seq<System>) {
    && ss != [] && ss[0] == System(map[], map[])
    && forall i {:trigger ss[i]} :: 0 < i < |ss| ==> Transition(ss[i - 1], ss[i], root, honest)
  }

  lemma {:induction false} RunIsGood(root: Block, honest: set<Key>, ss: seq<System>, i: nat, j: nat)
    requires Run(root, honest, ss) && i <= j < |ss|
    ensures Good(ss[j], root, honest)
    ensures Grows(ss[i].ballots, ss[j].ballots)
    decreases j
  {
    hide Disciplined, FsiMatches, Enabled, After;
    if j == 0 {
      InitiallyGood(root, honest);
    } else {
      RunIsGood(root, honest, ss, if i < j then i else j - 1, j - 1);
      assert Transition(ss[j - 1], ss[j], root, honest);
      var e :| Enabled(ss[j - 1], root, honest, e) && ss[j] == After(ss[j - 1], root, honest, e);
      EventKeepsGood(ss[j - 1], root, honest, e);
      assert forall k :: BallotsOf(ss[j - 1].ballots, k) <= BallotsOf(ss[j].ballots, k);
    }
  }

  lemma InitiallyGood(root: Block, honest: set<Key>)
    ensures Good(System(map[], map[]), root, honest)
  {
  }

  /** In every reachable system an honest finalizer votes strong on a block it may vote on if
      and only if all it has voted on since the claimed block is on that branch. */
  lemma RunsVoteExactly(root: Block, honest: set<Key>, ss: seq<System>, j: nat, k: Key, b: Block)
    requires Run(root, honest, ss) && j < |ss| && k in honest && k in ss[j].fsi && ChainOk(b)
    ensures var f := ss[j].fsi[k];
      Vote(f, b) == StrongVote <==> Vote(f, b) != NoVote && NothingElsewhere(BallotsOf(ss[j].ballots, k), b)
  {
    hide Run, HonestDisciplined, FsiMatches, Vote, NothingElsewhere;
    RunIsGood(root, honest, ss, j, j);
    assert RecordGood(ss[j], root, k);
    VoteIsStrongExactly(ss[j].ballots, root, ss[j].fsi[k], BallotsOf(ss[j].ballots, k), b);
  }

  /** Consensus safety over whole runs. Whatever faulty finalizers sign and however blocks,
      votes and policy changes interleave, a block held final by anyone at any time never
      conflicts with one held final by anyone at any other time. */
  lemma RunsAreSafe(root: Block, honest: set<Key>, ss: seq<System>, i: nat, j: nat, b: Block, c: Block)
    requires Run(root, honest, ss) && i <= j < |ss|
    requires PoliciesTrusted(ss[j].ballots, root, honest)
    requires Accepted(ss[i].ballots, root, b) && Accepted(ss[j].ballots, root, c)
    ensures Anc(LibBlock(b), LibBlock(c)) || Anc(LibBlock(c), LibBlock(b))
  {
    hide Run, Accepted, HonestDisciplined, PoliciesTrusted, RecordGood, LibBlock, Grows;
    RunIsGood(root, honest, ss, i, j);
    AcceptedGrows(ss[i].ballots, ss[j].ballots, root, b);
    NoConflictingFinality(ss[j].ballots, root, honest, b, c);
  }
}
