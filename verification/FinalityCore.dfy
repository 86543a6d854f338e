/**
  The finality core carried by every block header state: the window of QC links and
  block references from which the last final block and ancestry are read.
 */
module FinalityCore {
  import opened Blocks

  datatype BlockRef = BlockRef(id: Block, timestamp: nat, activeGeneration: nat, pendingGeneration: nat)

  datatype QcLink = QcLink(source: nat, target: nat, strong: bool)

  datatype Core = Core(links: seq<QcLink>, refs: seq<BlockRef>, genesisTimestamp: nat)

  function CurrentBlockNum(c: Core): (n: nat)
    requires c.links != []
  {
    c.links[|c.links| - 1].source
  }

  function LastFinalBlockNum(c: Core): (n: nat)
    requires c.links != []
  {
    c.links[0].target
  }

  function LatestQcClaim(c: Core): (q: QcClaim)
    requires c.links != []
  {
    var l := c.links[|c.links| - 1];
    QcClaim(l.target, l.strong)
  }

  /** Invariants 6 and 7 relate neighbours; stated here for all pairs. */
  ghost predicate LinksOrdered(links: seq<QcLink>) {
    && (forall i, j :: 0 <= i < j < |links| ==>
          links[j].source == links[i].source + (j - i) && links[i].target <= links[j].target)
    && (forall i :: 0 <= i < |links| ==> links[i].target <= links[i].source)
  }

  ghost predicate RefsOrdered(refs: seq<BlockRef>) {
    forall i, j :: 0 <= i < j < |refs| ==>
      Num(refs[j].id) == Num(refs[i].id) + (j - i) && refs[i].timestamp < refs[j].timestamp
  }

  /** Invariants 1 to 7 of the core, with the bound the source puts on every link target. */
  ghost predicate Invariants(c: Core) {
    && c.links != []
    && LastFinalBlockNum(c) <= c.links[0].source <= LatestQcClaim(c).num
    && (c.refs == [] ==>
          && |c.links| == 1
          && c.links[0].source == LatestQcClaim(c).num == LastFinalBlockNum(c))
    && (c.refs != [] ==>
          && Num(c.refs[0].id) == LastFinalBlockNum(c)
          && Num(c.refs[|c.refs| - 1].id) + 1 == CurrentBlockNum(c))
    && RefsOrdered(c.refs)
    && LinksOrdered(c.links)
  }

  /** Invariants 8 and 9, which the source derives from 1 to 7. */
  lemma WindowSizes(c: Core)
    requires Invariants(c)
    ensures CurrentBlockNum(c) - LastFinalBlockNum(c) == |c.refs|
    ensures CurrentBlockNum(c) - c.links[0].source == |c.links| - 1
  {
    assert |c.links| > 1 ==> c.links[|c.links| - 1].source == c.links[0].source + (|c.links| - 1);
    assert |c.refs| > 1 ==> Num(c.refs[|c.refs| - 1].id) == Num(c.refs[0].id) + (|c.refs| - 1);
  }

  function GenesisCore(num: nat, timestamp: nat): (c: Core)
    ensures Invariants(c)
    ensures CurrentBlockNum(c) == LastFinalBlockNum(c) == num
    ensures LatestQcClaim(c) == QcClaim(num, false)
  {
    Core([QcLink(num, num, false)], [], timestamp)
  }

  predicate IsGenesisCore(c: Core) {
    c.refs == []
  }

  function GetBlockReference(c: Core, num: nat): (r: BlockRef)
    requires Invariants(c)
    requires LastFinalBlockNum(c) <= num < CurrentBlockNum(c)
    ensures Num(r.id) == num && r in c.refs
  {
    WindowSizes(c);
    c.refs[num - LastFinalBlockNum(c)]
  }

  function GetQcLinkFrom(c: Core, num: nat): (l: QcLink)
    requires Invariants(c)
    requires c.links[0].source <= num <= CurrentBlockNum(c)
    ensures l.source == num && l in c.links
    ensures LastFinalBlockNum(c) <= l.target <= num
  {
    WindowSizes(c);
    c.links[num - c.links[0].source]
  }

  function LatestQcBlockTimestamp(c: Core): (t: nat)
    requires Invariants(c)
    requires !IsGenesisCore(c) ==> LatestQcClaim(c).num < CurrentBlockNum(c)
  {
    if IsGenesisCore(c) then c.genesisTimestamp else GetBlockReference(c, LatestQcClaim(c).num).timestamp
  }

  predicate Extends(c: Core, id: Block)
    requires Invariants(c)
  {
    LastFinalBlockNum(c) <= Num(id) < CurrentBlockNum(c) && GetBlockReference(c, Num(id)).id == id
  }

  /** The new last final block number and the source of the oldest link to keep. A weak
      claim moves neither; a strong claim on x adopts the link that starts at x. */
  function GetNewBlockNumbers(c: Core, claim: QcClaim): (r: (nat, nat))
    requires Invariants(c)
    requires LatestQcClaim(c).num <= claim.num <= CurrentBlockNum(c)
    ensures LastFinalBlockNum(c) <= r.0 <= r.1 && c.links[0].source <= r.1 <= claim.num
    ensures r.0 == GetQcLinkFrom(c, r.1).target
  {
    if !claim.strong then (LastFinalBlockNum(c), c.links[0].source)
    else
      var link := GetQcLinkFrom(c, claim.num);
      (link.target, link.source)
  }

  /** The preconditions documented on `finality_core::next`. */
  ghost predicate CanFollow(c: Core, current: BlockRef, claim: QcClaim) {
    && Invariants(c)
    && Num(current.id) == CurrentBlockNum(c)
    && (c.refs != [] ==> c.refs[|c.refs| - 1].timestamp < current.timestamp)
    && ClaimLe(LatestQcClaim(c), claim)
    && claim.num <= CurrentBlockNum(c)
  }

  lemma LinksTrimmed(links: seq<QcLink>, k: nat, claim: QcClaim)
    requires k < |links| && LinksOrdered(links)
    requires links[|links| - 1].target <= claim.num <= links[|links| - 1].source
    ensures LinksOrdered(links[k..] + [QcLink(links[|links| - 1].source + 1, claim.num, claim.strong)])
  {
    var kept := links[k..];
    assert LinksOrdered(kept);
    assert kept[|kept| - 1] == links[|links| - 1];
  }

  function TrimLinks(links: seq<QcLink>, k: nat, claim: QcClaim): (r: seq<QcLink>)
    requires k < |links| && LinksOrdered(links)
    requires links[|links| - 1].target <= claim.num <= links[|links| - 1].source
    ensures |r| >= 2 && r[0] == links[k]
    ensures r[|r| - 1] == QcLink(links[|links| - 1].source + 1, claim.num, claim.strong)
    ensures r == links[k..] + [r[|r| - 1]]
    ensures LinksOrdered(r)
  {
    LinksTrimmed(links, k, claim);
    links[k..] + [QcLink(links[|links| - 1].source + 1, claim.num, claim.strong)]
  }

  /** Drops the links below `front` and appends the link of the new block. */
  function NextLinks(c: Core, front: nat, claim: QcClaim): (links: seq<QcLink>)
    requires Invariants(c) && c.links[0].source <= front <= CurrentBlockNum(c)
    requires LatestQcClaim(c).num <= claim.num <= CurrentBlockNum(c)
    ensures |links| >= 2 && links[0] == GetQcLinkFrom(c, front)
    ensures links[|links| - 1] == QcLink(CurrentBlockNum(c) + 1, claim.num, claim.strong)
    ensures LinksOrdered(links)
  {
    WindowSizes(c);
    TrimLinks(c.links, front - c.links[0].source, claim)
  }

  /** Drops the references below the new last final block and appends the parent. */
  function NextRefs(c: Core, lib: nat, current: BlockRef): (refs: seq<BlockRef>)
    requires Invariants(c) && LastFinalBlockNum(c) <= lib <= CurrentBlockNum(c)
    requires Num(current.id) == CurrentBlockNum(c)
    requires c.refs != [] ==> c.refs[|c.refs| - 1].timestamp < current.timestamp
    ensures refs != [] && Num(refs[0].id) == lib && refs[|refs| - 1] == current
    ensures RefsOrdered(refs)
  {
    WindowSizes(c);
    TrimRefs(c.refs, lib - LastFinalBlockNum(c), current)
  }

  function TrimRefs(refs: seq<BlockRef>, k: nat, current: BlockRef): (r: seq<BlockRef>)
    requires k <= |refs| && RefsOrdered(refs)
    requires refs != [] ==>
      refs[|refs| - 1].timestamp < current.timestamp && Num(refs[|refs| - 1].id) + 1 == Num(current.id)
    ensures r == refs[k..] + [current] && RefsOrdered(r)
    ensures Num(r[0].id) == if refs == [] then Num(current.id) else Num(refs[0].id) + k
  {
    RefsTrimmed(refs, k, current);
    refs[k..] + [current]
  }

  lemma RefsTrimmed(refs: seq<BlockRef>, k: nat, current: BlockRef)
    requires k <= |refs| && RefsOrdered(refs)
    requires refs != [] ==>
      refs[|refs| - 1].timestamp < current.timestamp && Num(refs[|refs| - 1].id) + 1 == Num(current.id)
    ensures RefsOrdered(refs[k..] + [current])
    ensures Num((refs[k..] + [current])[0].id) == if refs == [] then Num(current.id) else Num(refs[0].id) + k
  {
    var r := refs[k..] + [current];
    forall i, j | 0 <= i < j < |r|
      ensures Num(r[j].id) == Num(r[i].id) + (j - i) && r[i].timestamp < r[j].timestamp
    {
      assert r[i] == refs[k + i];
      if j < |r| - 1 { assert r[j] == refs[k + j]; }
      else if i < |r| - 2 { assert refs[|refs| - 1].timestamp > refs[k + i].timestamp; }
    }
  }

  function NextCore(c: Core, current: BlockRef, claim: QcClaim): (r: Core)
    requires CanFollow(c, current, claim)
    ensures Invariants(r) && !IsGenesisCore(r)
    ensures CurrentBlockNum(r) == CurrentBlockNum(c) + 1
    ensures LatestQcClaim(r) == claim
    ensures LastFinalBlockNum(c) <= LastFinalBlockNum(r) <= claim.num
  {
    var (lib, front) := GetNewBlockNumbers(c, claim);
    Core(NextLinks(c, front, claim), NextRefs(c, lib, current), 0)
  }

  lemma NextCoreEnds(c: Core, current: BlockRef, claim: QcClaim)
    requires CanFollow(c, current, claim)
    ensures var r := NextCore(c, current, claim); r.refs != [] && r.refs[|r.refs| - 1] == current
  {
    hide LinksOrdered, RefsOrdered, NextLinks;
  }

  lemma NextRefAt(c: Core, lib: nat, current: BlockRef, n: nat)
    requires Invariants(c) && LastFinalBlockNum(c) <= lib <= n <= CurrentBlockNum(c)
    requires Num(current.id) == CurrentBlockNum(c)
    requires c.refs != [] ==> c.refs[|c.refs| - 1].timestamp < current.timestamp
    ensures var refs := NextRefs(c, lib, current);
      && n - lib < |refs|
      && refs[n - lib] == if n == CurrentBlockNum(c) then current else GetBlockReference(c, n)
  {
    hide LinksOrdered, RefsOrdered;
    WindowSizes(c);
  }

  /** The next core answers for every block in its window exactly as its parent did, and
      for the parent with the reference it was given. */
  lemma NextCoreReference(c: Core, current: BlockRef, claim: QcClaim, n: nat)
    requires CanFollow(c, current, claim)
    requires LastFinalBlockNum(NextCore(c, current, claim)) <= n <= CurrentBlockNum(c)
    ensures GetBlockReference(NextCore(c, current, claim), n) ==
      if n == CurrentBlockNum(c) then current else GetBlockReference(c, n)
  {
    hide Invariants, LinksOrdered, RefsOrdered, NextLinks, NextRefs;
    NextRefAt(c, GetNewBlockNumbers(c, claim).0, current, n);
  }

  lemma NextLinkAt(c: Core, front: nat, claim: QcClaim, n: nat)
    requires Invariants(c) && c.links[0].source <= front <= CurrentBlockNum(c)
    requires LatestQcClaim(c).num <= claim.num <= CurrentBlockNum(c)
    requires front <= n <= CurrentBlockNum(c) + 1
    ensures var links := NextLinks(c, front, claim);
      && links[0].source == front && n - front < |links|
      && links[n - front] == if n == CurrentBlockNum(c) + 1 then QcLink(n, claim.num, claim.strong) else GetQcLinkFrom(c, n)
  {
    hide LinksOrdered, RefsOrdered;
    WindowSizes(c);
  }

  lemma NextCoreLink(c: Core, current: BlockRef, claim: QcClaim, n: nat)
    requires CanFollow(c, current, claim)
    requires NextCore(c, current, claim).links[0].source <= n <= CurrentBlockNum(c) + 1
    ensures c.links[0].source <= NextCore(c, current, claim).links[0].source
    ensures GetQcLinkFrom(NextCore(c, current, claim), n) ==
      if n == CurrentBlockNum(c) + 1 then QcLink(n, claim.num, claim.strong) else GetQcLinkFrom(c, n)
  {
    hide Invariants, LinksOrdered, RefsOrdered, NextLinks, NextRefs;
    NextLinkAt(c, GetNewBlockNumbers(c, claim).1, claim, n);
  }
}
