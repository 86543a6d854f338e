/**
  A finalizer: its safety information and the rule by which it votes. The method reads
  the block's finality core; the specification speaks of the block tree.
 */
module Finalizers {
  import opened Options
  import opened Blocks
  import opened FinalityCore
  import opened HeaderStates
  import opened ChainTracking

  /** `lastVote` and `lock` are None while unset; an unset reference has timestamp 0. */
  datatype Fsi = Fsi(lastVote: Option<BlockRef>, lock: Option<BlockRef>, otherBranchLatestTime: nat)

  datatype Decision = NoVote | StrongVote | WeakVote

  datatype VoteResult = VoteResult(decision: Decision, safety: bool, liveness: bool, monotony: bool)

  function Time(r: Option<BlockRef>): (t: nat) {
    if r.Some? then r.value.timestamp else 0
  }

  function QcTime(b: Block): (t: nat)
    requires ChainOk(b)
  {
    QcBlock(b).timestamp
  }

  /** `a` is a strict ancestor of `b` that `b` still sees, that is, not below its LIB. */
  predicate Sees(b: Block, a: Block)
    requires ChainOk(b)
  {
    Anc(a, b) && a != b && Num(LibBlock(b)) <= Num(a)
  }

  predicate SeesRef(b: Block, r: Option<BlockRef>)
    requires ChainOk(b)
  {
    r.Some? && Sees(b, r.value.id)
  }

  /** Later than the last vote, and either justified above the lock or an extension of it. */
  predicate MayVote(f: Fsi, b: Block)
    requires ChainOk(b)
  {
    && (f.lastVote.Some? ==> b.timestamp > Time(f.lastVote))
    && f.lock.Some?
    && (QcTime(b) > Time(f.lock) || SeesRef(b, f.lock))
  }

  /** A strong vote swears that nothing was voted for off this branch since the claimed block. */
  function Vote(f: Fsi, b: Block): (d: Decision)
    requires ChainOk(b)
  {
    if !MayVote(f, b) then NoVote
    else if Time(f.lastVote) <= QcTime(b) then StrongVote
    else if SeesRef(b, f.lastVote) && f.otherBranchLatestTime <= QcTime(b) then StrongVote
    else WeakVote
  }

  function AfterVote(f: Fsi, b: Block): (g: Fsi)
    requires Valid(b) && Valid(QcBlock(b))
  {
    match Vote(f, b)
    case NoVote => f
    case StrongVote =>
      Fsi(Some(RefOf(b)), if QcTime(b) > Time(f.lock) then Some(RefOf(QcBlock(b))) else f.lock, 0)
    case WeakVote =>
      Fsi(Some(RefOf(b)), f.lock, if SeesRef(b, f.lastVote) then f.otherBranchLatestTime else Time(f.lastVote))
  }

  class Finalizer {
    var fsi: Fsi

    constructor (fsi: Fsi)
      ensures this.fsi == fsi
    {
      this.fsi := fsi;
    }

    method DecideVote(b: Block) returns (res: VoteResult)
      requires b.Next? && Valid(b) && Valid(QcBlock(b))
      modifies this
      ensures res.decision == Vote(old(fsi), b)
      ensures fsi == AfterVote(old(fsi), b)
      ensures res.monotony <==> (old(fsi).lastVote.Some? ==> b.timestamp > Time(old(fsi).lastVote))
      ensures res.liveness <==> res.monotony && old(fsi).lock.Some? && QcTime(b) > Time(old(fsi).lock)
      ensures res.safety <==> res.monotony && !res.liveness && SeesRef(b, old(fsi).lock)
    {
      hide State, LibBlock, QcBlock, Anc, Extends, GetBlockReference, LatestQcBlockTimestamp, LinksOrdered, RefsOrdered, ChainOk;
      var core := Of(b).core;
      QcTimestampTracks(b);
      QcReferenceTracks(b);
      res := VoteResult(NoVote, false, false, false);

      res := res.(monotony := fsi.lastVote.None? || b.timestamp > Time(fsi.lastVote));
      if !res.monotony {
        return;
      }

      if fsi.lock.Some? {
        ExtendsIsAncestry(b, fsi.lock.value.id);
        res := res.(liveness := LatestQcBlockTimestamp(core) > Time(fsi.lock));
        if !res.liveness {
          res := res.(safety := Extends(core, fsi.lock.value.id));
        }
      } else {
        res := res.(liveness := false, safety := false);
      }

      if res.liveness || res.safety {
        var qcTime := LatestQcBlockTimestamp(core);
        if fsi.lastVote.Some? {
          ExtendsIsAncestry(b, fsi.lastVote.value.id);
        }
        if Time(fsi.lastVote) <= qcTime {
          res := res.(decision := StrongVote);
        } else if Extends(core, fsi.lastVote.value.id) {
          if fsi.otherBranchLatestTime <= qcTime {
            res := res.(decision := StrongVote);
          } else {
            res := res.(decision := WeakVote);
          }
        } else {
          res := res.(decision := WeakVote);
          fsi := fsi.(otherBranchLatestTime := Time(fsi.lastVote));
        }

        if res.decision == StrongVote {
          fsi := fsi.(otherBranchLatestTime := 0);
          if qcTime > Time(fsi.lock) {
            fsi := fsi.(lock := Some(GetBlockReference(core, LatestQcClaim(core).num)));
          }
        }
        fsi := fsi.(lastVote := Some(MakeBlockRef(b, Of(b))));
      }
    }

    /** Catches up on evidence that this key voted strong on `b`. */
    method MaybeUpdateFsi(b: Block) returns (updated: bool)
      requires b.Next? && Valid(b) && Valid(QcBlock(b))
      modifies this
      ensures updated <==> QcTime(b) > Time(old(fsi).lock) && b.timestamp > Time(old(fsi).lastVote)
      ensures fsi == if updated then Fsi(Some(RefOf(b)), Some(RefOf(QcBlock(b))), 0) else old(fsi)
    {
      hide State, GetBlockReference;
      QcReferenceTracks(b);
      var ref := GetBlockReference(Of(b).core, LatestQcClaim(Of(b).core).num);
      if ref.timestamp > Time(fsi.lock) && b.timestamp > Time(fsi.lastVote) {
        fsi := Fsi(Some(MakeBlockRef(b, Of(b))), Some(ref), 0);
        return true;
      }
      return false;
    }
  }

  /** The core's reference for the claimed block is the claimed block's own. */
  lemma QcReferenceTracks(b: Block)
    requires b.Next? && Valid(b)
    ensures Valid(QcBlock(b))
    ensures LastFinalBlockNum(Of(b).core) <= LatestQcClaim(Of(b).core).num < CurrentBlockNum(Of(b).core)
    ensures GetBlockReference(Of(b).core, LatestQcClaim(Of(b).core).num) == RefOf(QcBlock(b))
  {
    hide State, GetBlockReference;
    CoreTracksChain(b);
    ClaimInRange(b);
    LibIsAncestor(b);
    assert ReferenceTracks(b, Claim(b).num);
  }

  /** The safety information of a finalizer that starts at the root with the default
      information and votes on every block up to `b`. */
  ghost function VotedAlong(b: Block): (f: Fsi)
    requires Valid(b)
  {
    if b.Genesis? then Fsi(None, Some(RefOf(b)), 0)
    else
      ValidAncestor(b.parent, b);
      ValidAncestor(QcBlock(b), b);
      AfterVote(VotedAlong(b.parent), b)
  }

  /** Progress on one branch: such a finalizer votes strong on every next block, whatever
      claims the blocks carry, and stays locked on the block the last one claims. */
  lemma {:induction false} AlwaysStrongOnOneBranch(b: Block)
    requires b.Next? && Valid(b)
    ensures Valid(b.parent) && Vote(VotedAlong(b.parent), b) == StrongVote
    ensures Valid(QcBlock(b)) && VotedAlong(b) == Fsi(Some(RefOf(b)), Some(RefOf(QcBlock(b))), 0)
  {
    hide State, LibBlock, QcBlock, MakeBlockRef;
    ValidAncestor(b.parent, b);
    ValidAncestor(QcBlock(b), b);
    ValidAncestor(QcBlock(b.parent), b.parent);
    if b.parent.Genesis? {
    } else {
      AlwaysStrongOnOneBranch(b.parent);
    }
    VotesAfterParent(b, VotedAlong(b.parent));
  }

  // A claim either moves past the parent's, or names the same block still in sight.
  lemma ClaimMoves(b: Block)
    requires b.Next? && ChainOk(b)
    ensures var p, q := QcBlock(b.parent), QcBlock(b);
      (q.timestamp > p.timestamp || q == p) && (q == p ==> Sees(b, p))
    ensures b.parent.timestamp < b.timestamp && Sees(b, b.parent)
  {
    hide LibBlock;
    var p, q := QcBlock(b.parent), QcBlock(b);
    QcBlockMonotone(b.parent, b);
    LibIsAncestor(b);
    AncOrder(q, b);
    AncOrder(p, q);
    AncTransitive(p, b.parent, b);
    AncOrder(b.parent, b);
  }

  lemma VotesAfterParent(b: Block, f: Fsi)
    requires b.Next? && Valid(b) && Valid(b.parent) && Valid(QcBlock(b.parent)) && Valid(QcBlock(b))
    requires f.otherBranchLatestTime == 0 && f.lock == Some(RefOf(QcBlock(b.parent)))
    requires f.lastVote.None? || f.lastVote == Some(RefOf(b.parent))
    ensures Vote(f, b) == StrongVote && AfterVote(f, b).lock == Some(RefOf(QcBlock(b)))
  {
    hide State, LibBlock, ChainOk, Root, QcBlock, Sees;
    ClaimMoves(b);
  }
}
