/**
  The core in the header state of a block tells the truth about its chain: it is a faithful
  window onto the ancestors, and its last final block is the one the two-chain rule selects.
 */
module ChainTracking {
  import opened Blocks
  import opened FinalityCore
  import opened HeaderStates

  lemma {:induction false} ValidAncestor(a: Block, b: Block)
    requires Anc(a, b) && Valid(b)
    ensures Valid(a) && Root(a) == Root(b)
  {
    if a == b {
    } else {
      ValidAncestor(a, b.parent);
    }
  }

  function RefOf(a: Block): (r: BlockRef)
    requires Valid(a)
  {
    MakeBlockRef(a, Of(a))
  }

  function LinkOf(a: Block): (l: QcLink) {
    QcLink(Num(a), Claim(a).num, Claim(a).strong)
  }

  /** The core's window shows exactly the references and links of the real ancestors. */
  ghost predicate Tracks(b: Block)
    requires Valid(b)
  {
    var c := Of(b).core;
    RootIsLowest(b);
    && LastFinalBlockNum(c) == Num(LibBlock(b))
    && (forall n :: LastFinalBlockNum(c) <= n < Num(b) ==> ReferenceTracks(b, n))
    && (forall n :: c.links[0].source <= n <= Num(b) ==> LinkTracks(b, n))
  }

  ghost predicate ReferenceTracks(b: Block, n: nat)
    requires Valid(b) && LastFinalBlockNum(Of(b).core) <= n < Num(b)
  {
    && Num(Root(b)) <= n
    && Valid(AncestorAt(b, n))
    && GetBlockReference(Of(b).core, n) == RefOf(AncestorAt(b, n))
  }

  ghost predicate LinkTracks(b: Block, n: nat)
    requires Valid(b) && Of(b).core.links[0].source <= n <= Num(b)
  {
    && Num(Root(b)) <= n
    && GetQcLinkFrom(Of(b).core, n) == LinkOf(AncestorAt(b, n))
  }

  lemma CanFollowParent(b: Block)
    requires b.Next? && Valid(b)
    ensures Valid(b.parent)
    ensures CanFollow(Of(b.parent).core, RefOf(b.parent), b.claim)
    ensures Of(b).core == NextCore(Of(b.parent).core, RefOf(b.parent), b.claim)
    ensures Of(b).policies == NextPolicies(Of(b.parent), b, Of(b).core)
  {
    hide NextCore, NextPolicies, LinksOrdered, RefsOrdered, GetFinalizerPolicies, GetBlockReference;
    ValidAncestor(b.parent, b);
    assert ChainOk(b.parent);
  }

  lemma LibTracks(b: Block)
    requires b.Next? && Valid(b) && Valid(b.parent) && Tracks(b.parent)
    ensures LastFinalBlockNum(Of(b).core) == Num(LibBlock(b))
  {
    CanFollowParent(b);
    var c := Of(b.parent).core;
    if b.claim.strong {
      assert LinkTracks(b.parent, b.claim.num);
      var q := QcBlock(b);
      assert q == AncestorAt(b.parent, b.claim.num);
      AncOrder(q, b);
    }
  }

  lemma ReferenceStep(b: Block, n: nat)
    requires b.Next? && Valid(b) && Valid(b.parent) && Tracks(b.parent)
    requires LastFinalBlockNum(Of(b).core) <= n < Num(b)
    ensures ReferenceTracks(b, n)
  {
    hide LinksOrdered, RefsOrdered, NextCore, State, GetBlockReference, NextPolicies;
    CanFollowParent(b);
    NextCoreReference(Of(b.parent).core, RefOf(b.parent), b.claim, n);
    LibIsAncestor(b.parent);
    AncIsAncestorAt(LibBlock(b.parent), b.parent);
    assert AncestorAt(b, n) == AncestorAt(b.parent, n);
    if n < Num(b.parent) { assert ReferenceTracks(b.parent, n); }
  }

  lemma LinkStep(b: Block, n: nat)
    requires b.Next? && Valid(b) && Valid(b.parent) && Tracks(b.parent)
    requires Of(b).core.links[0].source <= n <= Num(b)
    ensures LinkTracks(b, n)
  {
    hide LinksOrdered, RefsOrdered, NextCore, State, GetQcLinkFrom, NextPolicies;
    CanFollowParent(b);
    NextCoreLink(Of(b.parent).core, RefOf(b.parent), b.claim, n);
    RootIsLowest(b.parent);
    if n < Num(b) { assert LinkTracks(b.parent, n); }
  }

  lemma GenesisTracks(b: Block)
    requires b.Genesis? && Valid(b)
    ensures Tracks(b)
  {
    hide LinksOrdered, RefsOrdered;
  }

  lemma {:induction false} CoreTracksChain(b: Block)
    requires Valid(b)
    ensures Tracks(b)
  {
    hide LinksOrdered, RefsOrdered, ReferenceTracks, LinkTracks, State;
    if b.Genesis? {
      GenesisTracks(b);
    } else {
      RootIsLowest(b);
      ValidAncestor(b.parent, b);
      CoreTracksChain(b.parent);
      LibTracks(b);
      forall n | LastFinalBlockNum(Of(b).core) <= n < Num(b) ensures ReferenceTracks(b, n) {
        ReferenceStep(b, n);
      }
      forall n | Of(b).core.links[0].source <= n <= Num(b) ensures LinkTracks(b, n) {
        LinkStep(b, n);
      }
    }
  }

  /** The core's QC timestamp is that of the claimed ancestor. */
  lemma QcTimestampTracks(b: Block)
    requires Valid(b)
    ensures !IsGenesisCore(Of(b).core) ==> LatestQcClaim(Of(b).core).num < CurrentBlockNum(Of(b).core)
    ensures LatestQcBlockTimestamp(Of(b).core) == QcBlock(b).timestamp
  {
    hide LinksOrdered, RefsOrdered, State, GetBlockReference;
    CoreTracksChain(b);
    ClaimInRange(b);
    if b.Next? {
      LibIsAncestor(b);
      assert ReferenceTracks(b, Claim(b).num);
    }
  }

  /** `extends` decides strict ancestry, down to the last final block. */
  lemma ExtendsIsAncestry(b: Block, a: Block)
    requires Valid(b)
    ensures Extends(Of(b).core, a) <==> Anc(a, b) && a != b && Num(LibBlock(b)) <= Num(a)
  {
    hide LinksOrdered, RefsOrdered, State, GetBlockReference;
    CoreTracksChain(b);
    if Num(LibBlock(b)) <= Num(a) < Num(b) {
      assert ReferenceTracks(b, Num(a));
      if Anc(a, b) { AncIsAncestorAt(a, b); }
    }
    if Anc(a, b) { AncOrder(a, b); }
  }

  /** The last final block the core names is the block the two-chain rule makes final. */
  lemma CoreFinalBlock(b: Block)
    requires b.Next? && Valid(b)
    ensures LastFinalBlockNum(Of(b).core) == Num(LibBlock(b)) < Num(b)
    ensures Root(b).num <= Num(LibBlock(b)) && AncestorAt(b, Num(LibBlock(b))) == LibBlock(b)
    ensures ReferenceTracks(b, Num(LibBlock(b)))
  {
    hide LinksOrdered, RefsOrdered, State, GetBlockReference, LibBlock, ReferenceTracks, LinkTracks;
    CoreTracksChain(b);
    ValidAncestor(b.parent, b);
    CoreTracksChain(b.parent);
    LibTracks(b);
    LibIsAncestor(b);
    AncIsAncestorAt(LibBlock(b), b);
    AncOrder(LibBlock(b), b);
  }
}
