/**
  The block tree. A block is identified with its header chain, so a block id is the
  block value itself (a collision-free hash), and ancestry is structural.
 */
module Blocks {
  import opened Options
  import opened Policies

  /** The claim in a header: a QC exists for ancestor number `num`, of this strength. */
  datatype QcClaim = QcClaim(num: nat, strong: bool)

  /** The member-wise order on claims: block number first, then weak below strong. */
  predicate ClaimLe(a: QcClaim, b: QcClaim) {
    a.num < b.num || (a.num == b.num && (a.strong ==> b.strong))
  }

  datatype Block =
    | Genesis(num: nat, timestamp: nat, policy: Policy)
    | Next(parent: Block, timestamp: nat, claim: QcClaim, proposal: Option<Policy>, payload: nat)

  function Num(b: Block): (n: nat) {
    match b
    case Genesis(num, _, _) => num
    case Next(parent, _, _, _, _) => Num(parent) + 1
  }

  function Root(b: Block): (r: Block)
    ensures r.Genesis?
  {
    if b.Genesis? then b else Root(b.parent)
  }

  /** The genesis block claims itself, weakly. */
  function Claim(b: Block): (c: QcClaim) {
    if b.Genesis? then QcClaim(b.num, false) else b.claim
  }

  /** Header checks along a whole chain: later than its parent, and a claim that neither
      regresses nor exceeds the parent's number. */
  predicate ChainOk(b: Block) {
    b.Next? ==>
      && ChainOk(b.parent)
      && b.parent.timestamp < b.timestamp
      && ClaimLe(Claim(b.parent), b.claim)
      && b.claim.num <= Num(b.parent)
  }

  /** `a` is `b` or an ancestor of `b`. */
  predicate Anc(a: Block, b: Block) {
    a == b || (b.Next? && Anc(a, b.parent))
  }

  function AncestorAt(b: Block, n: nat): (a: Block)
    requires Num(Root(b)) <= n <= Num(b)
    ensures Num(a) == n && Anc(a, b)
  {
    if n == Num(b) then b else AncestorAt(b.parent, n)
  }

  lemma {:induction false} RootIsLowest(b: Block)
    ensures Num(Root(b)) <= Num(b)
    ensures Anc(Root(b), b)
    ensures ChainOk(b) ==> Root(b).timestamp <= b.timestamp
  {
    if b.Genesis? {
    } else {
      RootIsLowest(b.parent);
    }
  }

  lemma {:induction false} AncTransitive(a: Block, b: Block, c: Block)
    requires Anc(a, b) && Anc(b, c)
    ensures Anc(a, c)
  {
    if b == c {
    } else {
      AncTransitive(a, b, c.parent);
    }
  }

  lemma {:induction false} AncOrder(a: Block, b: Block)
    requires Anc(a, b) && ChainOk(b)
    ensures ChainOk(a) && Root(a) == Root(b)
    ensures ClaimLe(Claim(a), Claim(b))
    ensures a != b ==> a.timestamp < b.timestamp && Num(a) < Num(b)
  {
    if a == b {
    } else {
      AncOrder(a, b.parent);
    }
  }

  /** Along a branch claims never go back, and a strong claim is never made weak again. */
  lemma {:induction false} ClaimsNeverRegress(a: Block, b: Block)
    requires Anc(a, b) && ChainOk(b)
    ensures Claim(a).num <= Claim(b).num
    ensures Claim(a).num == Claim(b).num && Claim(a).strong ==> Claim(b).strong
  {
    if a == b {
    } else {
      ClaimsNeverRegress(a, b.parent);
    }
  }

  lemma {:induction false} AncIsAncestorAt(a: Block, b: Block)
    requires Anc(a, b) && ChainOk(b)
    ensures Num(Root(b)) <= Num(a) <= Num(b)
    ensures AncestorAt(b, Num(a)) == a
  {
    RootIsLowest(b);
    AncOrder(a, b);
    RootIsLowest(a);
    if a == b {
    } else {
      AncIsAncestorAt(a, b.parent);
    }
  }

  /** The ancestors of one block are linearly ordered, by number and by timestamp alike. */
  lemma {:induction false} AncLinear(a: Block, b: Block, c: Block)
    requires Anc(a, c) && Anc(b, c) && ChainOk(c)
    requires Num(a) <= Num(b) || a.timestamp <= b.timestamp
    ensures Anc(a, b)
  {
    if b == c {
    } else if a == c {
      AncOrder(b, c);
    } else {
      AncLinear(a, b, c.parent);
    }
  }

  lemma {:induction false} ClaimInRange(b: Block)
    requires ChainOk(b)
    ensures Num(Root(b)) <= Claim(b).num <= Num(b)
    ensures b.Next? ==> Claim(b).num < Num(b)
  {
    if b.Genesis? {
    } else {
      ClaimInRange(b.parent);
    }
  }

  /** The ancestor whose QC `b` claims. */
  function QcBlock(b: Block): (q: Block)
    requires ChainOk(b)
    ensures Anc(q, b) && Num(q) == Claim(b).num
    ensures b.Next? ==> q != b
  {
    ClaimInRange(b);
    AncestorAt(b, Claim(b).num)
  }

  lemma ClaimsParent(b: Block)
    requires b.Next? && ChainOk(b) && b.claim.num == Num(b.parent)
    ensures QcBlock(b) == b.parent
  {
    AncIsAncestorAt(b.parent, b);
  }

  /** The two-chain rule. A strong claim on x makes the block claimed by x final; a weak
      claim leaves finality where the parent had it. */
  function LibBlock(b: Block): (l: Block)
    requires ChainOk(b)
  {
    if b.Genesis? then b
    else if b.claim.strong then
      AncOrder(QcBlock(b), b);
      QcBlock(QcBlock(b))
    else LibBlock(b.parent)
  }

  lemma {:induction false} LibIsAncestor(b: Block)
    requires ChainOk(b)
    ensures Anc(LibBlock(b), b)
    ensures Num(LibBlock(b)) <= Claim(b).num
    ensures b.Next? ==> LibBlock(b) != b
  {
    if b.Genesis? {
    } else {
      if b.claim.strong {
        var q := QcBlock(b);
        AncOrder(q, b);
        AncTransitive(QcBlock(q), q, b);
        AncOrder(QcBlock(q), q);
      } else {
        LibIsAncestor(b.parent);
        AncOrder(b.parent, b);
        AncOrder(LibBlock(b.parent), b.parent);
      }
    }
  }

  lemma {:induction false} QcBlockMonotone(a: Block, b: Block)
    requires Anc(a, b) && ChainOk(b)
    ensures ChainOk(a) && Anc(QcBlock(a), QcBlock(b)) && Anc(QcBlock(a), b)
    ensures QcBlock(a).timestamp <= QcBlock(b).timestamp
  {
    AncOrder(a, b);
    AncTransitive(QcBlock(a), a, b);
    AncOrder(QcBlock(b), b);
    AncLinear(QcBlock(a), QcBlock(b), b);
    AncOrder(QcBlock(a), QcBlock(b));
  }

  lemma {:induction false} LibMonotone(a: Block, b: Block)
    requires Anc(a, b) && ChainOk(b)
    ensures ChainOk(a) && Anc(LibBlock(a), LibBlock(b))
    ensures Num(LibBlock(a)) <= Num(LibBlock(b))
  {
    AncOrder(a, b);
    if a == b {
    } else {
      LibMonotone(a, b.parent);
      LibStep(b);
      AncTransitive(LibBlock(a), LibBlock(b.parent), LibBlock(b));
    }
    LibIsAncestor(b);
    AncOrder(LibBlock(b), b);
    AncOrder(LibBlock(a), LibBlock(b));
  }

  lemma {:induction false} LibStep(b: Block)
    requires b.Next? && ChainOk(b)
    ensures Anc(LibBlock(b.parent), LibBlock(b))
  {
    if b.claim.strong {
      var q := QcBlock(b);
      var l := LibBlock(b.parent);
      AncOrder(q, b);
      LibIsFromStrongClaim(b.parent);
      if l == Root(b) {
        AncOrder(QcBlock(q), q);
        RootIsLowest(QcBlock(q));
      } else {
        var y := StrongClaimer(b.parent);
        QcBlockMonotone(y, b);
        QcBlockMonotone(QcBlock(y), q);
      }
    }
  }

  /** The latest block at or below `b` whose claim is strong (the root when there is none). */
  function StrongClaimer(b: Block): (y: Block)
    ensures Anc(y, b)
  {
    if b.Genesis? || b.claim.strong then b else StrongClaimer(b.parent)
  }

  /** Finality never comes from nowhere: a final block other than the root is what the
      strongly certified block x claims, for an x strictly below `b`. */
  lemma {:induction false} LibIsFromStrongClaim(b: Block)
    requires ChainOk(b)
    ensures var y := StrongClaimer(b);
      if y.Genesis? then LibBlock(b) == Root(b)
      else
        && y.claim.strong && ChainOk(y) && ChainOk(QcBlock(y))
        && LibBlock(b) == QcBlock(QcBlock(y))
        && Anc(QcBlock(y), QcBlock(b))
  {
    var y := StrongClaimer(b);
    if b.Next? && !b.claim.strong {
      LibIsFromStrongClaim(b.parent);
      if y.Next? {
        QcBlockMonotone(y, b);
        AncOrder(QcBlock(y), y);
      }
    } else if b.Next? {
      AncOrder(QcBlock(b), b);
    }
  }

  /** The highest common ancestor of two blocks of one tree. */
  function ForkPoint(b: Block, c: Block): (d: Block)
    requires Root(b) == Root(c)
    ensures Anc(d, b) && Anc(d, c)
  {
    if Anc(b, c) then b
    else
      RootIsLowest(c);
      ForkPoint(b.parent, c)
  }

  lemma {:induction false} ForkPointIsHighest(b: Block, c: Block, a: Block)
    requires Root(b) == Root(c) && Anc(a, b) && Anc(a, c)
    ensures Anc(a, ForkPoint(b, c))
  {
    if Anc(b, c) {
    } else {
      RootIsLowest(c);
      ForkPointIsHighest(b.parent, c, a);
    }
  }
}
