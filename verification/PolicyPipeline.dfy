/**
  The finalizer policy pipeline: proposed, then pending, then active, driven by the last
  final block number (LIB) of each new block.
 */
module PolicyPipeline {
  import opened Options
  import opened Policies

  /** A policy with the number of the block in which it was proposed or became pending. */
  datatype Stamped = Stamped(num: nat, policy: Policy)

  datatype PolicyState = PolicyState(
    active: Policy, pending: Option<Stamped>, proposed: seq<Stamped>, lastPendingStart: nat)

  /** The number of leading proposals at or below `lib`. */
  function FirstReversible(proposed: seq<Stamped>, lib: nat): (k: nat)
    ensures k <= |proposed|
    ensures forall i :: 0 <= i < k ==> proposed[i].num <= lib
    ensures k < |proposed| ==> proposed[k].num > lib
  {
    if proposed == [] || proposed[0].num > lib then 0 else 1 + FirstReversible(proposed[1..], lib)
  }

  predicate SlotOpen(prev: PolicyState, lib: nat) {
    prev.pending.None? || prev.pending.value.num <= lib
  }

  /** How many proposals leave the queue: all those at or below `lib`, except that the last
      of them stays when it cannot be promoted. */
  function Cut(prev: PolicyState, lib: nat): (c: nat)
    ensures c <= |prev.proposed|
    ensures forall i :: 0 <= i < c ==> prev.proposed[i].num <= lib
  {
    var k := FirstReversible(prev.proposed, lib);
    if SlotOpen(prev, lib) || k == 0 then k else k - 1
  }

  /** What block `num` at time `now` makes of its parent's policies, given its LIB. */
  function Promote(prev: PolicyState, lib: nat, num: nat, now: nat): (next: PolicyState) {
    var c := Cut(prev, lib);
    if !SlotOpen(prev, lib) then
      prev.(proposed := prev.proposed[c..])
    else
      var active := if prev.pending.Some? then prev.pending.value.policy else prev.active;
      if c == 0 then prev.(active := active, pending := None)
      else PolicyState(active, Some(Stamped(num, prev.proposed[c - 1].policy)), prev.proposed[c..], now)
  }

  method FindFirstReversible(proposed: seq<Stamped>, lib: nat) returns (k: nat)
    ensures k == FirstReversible(proposed, lib)
  {
    k := 0;
    while k < |proposed| && proposed[k].num <= lib
      invariant k <= |proposed|
      invariant forall i :: 0 <= i < k ==> proposed[i].num <= lib
    {
      k := k + 1;
    }
  }

  /** The mutable half of the header state under construction. */
  class NextHeaderState {
    const lib: nat
    const num: nat
    const timestamp: nat
    var active: Policy
    var pending: Option<Stamped>
    var proposed: seq<Stamped>
    var lastPendingStart: nat

    constructor (prev: PolicyState, lib: nat, num: nat, timestamp: nat)
      ensures this.lib == lib && this.num == num && this.timestamp == timestamp
      ensures active == prev.active && lastPendingStart == prev.lastPendingStart
      ensures pending == None && proposed == []
    {
      this.lib, this.num, this.timestamp := lib, num, timestamp;
      active, lastPendingStart := prev.active, prev.lastPendingStart;
      pending, proposed := None, [];
    }

    function View(): (s: PolicyState)
      reads this
    {
      PolicyState(active, pending, proposed, lastPendingStart)
    }

    method EvaluateForPromotion(prev: PolicyState)
      requires active == prev.active && lastPendingStart == prev.lastPendingStart
      requires pending == None && proposed == []
      modifies this
      ensures View() == Promote(prev, lib, num, timestamp)
    {
      hide FirstReversible, Promote;
      PromoteCases(prev, lib, num, timestamp);
      if prev.pending.None? && prev.proposed == [] {
        return;
      }
      var pendingSlotOpen := true;
      if prev.pending.Some? {
        if prev.pending.value.num <= lib {
          active := prev.pending.value.policy;
        } else {
          pending := prev.pending;
          pendingSlotOpen := false;
        }
      }
      if prev.proposed == [] {
        return;
      }
      var firstReversible := FindFirstReversible(prev.proposed, lib);
      if firstReversible > 0 {
        var target := prev.proposed[firstReversible - 1];
        if pendingSlotOpen {
          pending := Some(Stamped(num, target.policy));
          lastPendingStart := timestamp;
        } else {
          proposed := [target];
        }
        proposed := proposed + prev.proposed[firstReversible..];
      } else {
        proposed := prev.proposed;
      }
    }
  }

  /** The four outcomes: the slot open or not, a proposal to promote or not. */
  lemma PromoteCases(prev: PolicyState, lib: nat, num: nat, now: nat)
    ensures var next, k := Promote(prev, lib, num, now), FirstReversible(prev.proposed, lib);
      && (prev.proposed == [] ==> k == 0)
      && (if SlotOpen(prev, lib) then
            var active := if prev.pending.Some? then prev.pending.value.policy else prev.active;
            if k == 0 then next == PolicyState(active, None, prev.proposed, prev.lastPendingStart)
            else next == PolicyState(active, Some(Stamped(num, prev.proposed[k - 1].policy)), [] + prev.proposed[k..], now)
          else if k == 0 then next == prev
          else next == prev.(proposed := [prev.proposed[k - 1]] + prev.proposed[k..]))
  {
    hide FirstReversible;
    var ps, k := prev.proposed, FirstReversible(prev.proposed, lib);
    assert ps[0..] == ps && [] + ps[k..] == ps[k..];
    if k > 0 { assert [ps[k - 1]] + ps[k..] == ps[k - 1..]; }
  }

  /** One block: promote, then queue the block's own proposal. */
  datatype Input = Input(lib: nat, timestamp: nat, proposal: Option<Policy>)

  function Step(prev: PolicyState, num: nat, x: Input): (next: PolicyState) {
    var s := Promote(prev, x.lib, num, x.timestamp);
    if x.proposal.None? then s else s.(proposed := s.proposed + [Stamped(num, x.proposal.value)])
  }

  /** The state after the first `k` blocks of a run that starts above block `base`. */
  function RunTo(s0: PolicyState, base: nat, xs: seq<Input>, k: nat): (s: PolicyState)
    requires k <= |xs|
  {
    if k == 0 then s0 else Step(RunTo(s0, base, xs, k - 1), base + k, xs[k - 1])
  }

  // ---- order ------------------------------------------------------------------------

  /** Proposals in increasing block and generation order, above generation `low`. */
  ghost predicate Queue(ps: seq<Stamped>, low: nat, num: nat, generation: nat) {
    && (forall i :: 0 <= i < |ps| ==> ps[i].num <= num && low < ps[i].policy.generation <= generation)
    && (forall i, j :: 0 <= i < j < |ps| ==>
          ps[i].num < ps[j].num && ps[i].policy.generation < ps[j].policy.generation)
  }

  /** Active below pending below proposed, in generation order; every stamp in the past. */
  ghost predicate Ordered(s: PolicyState, num: nat, generation: nat) {
    && s.active.generation <= generation
    && (s.pending.Some? ==>
          && s.pending.value.num <= num
          && s.active.generation < s.pending.value.policy.generation <= generation)
    && Queue(s.proposed, LastPending(s).generation, num, generation)
  }

  function LastPending(s: PolicyState): (p: Policy) {
    if s.pending.Some? then s.pending.value.policy else s.active
  }

  /** The generation counter kept in the header state. */
  function NextGeneration(generation: nat, x: Input): (g: nat) {
    if x.proposal.Some? then x.proposal.value.generation else generation
  }

  ghost predicate Acceptable(x: Input, num: nat, generation: nat) {
    && x.lib < num
    && (x.proposal.Some? ==> x.proposal.value.generation > generation)
  }

  lemma QueueSuffix(ps: seq<Stamped>, k: nat, low: nat, num: nat, generation: nat)
    requires k <= |ps| && Queue(ps, low, num, generation)
    ensures Queue(ps[k..], if k == 0 then low else ps[k - 1].policy.generation, num + 1, generation)
    ensures Queue(ps[k..], low, num + 1, generation)
  {
    var t := ps[k..];
    assert forall i :: 0 <= i < |t| ==> t[i] == ps[k + i];
  }

  lemma QueueAppend(ps: seq<Stamped>, low: nat, num: nat, generation: nat, p: Policy)
    requires Queue(ps, low, num, generation) && generation < p.generation && low <= generation
    requires forall st :: st in ps ==> st.num < num
    ensures Queue(ps + [Stamped(num, p)], low, num, p.generation)
  {
  }

  /** Promotion only ever moves to a suffix of the queue, and fills the slot from just
      below that suffix. */
  lemma PromoteKeepsOrder(s: PolicyState, num: nat, lib: nat, now: nat, generation: nat)
    requires Ordered(s, num, generation)
    ensures Ordered(Promote(s, lib, num + 1, now), num + 1, generation)
    ensures s.active.generation <= Promote(s, lib, num + 1, now).active.generation
    ensures LastPending(s).generation <= LastPending(Promote(s, lib, num + 1, now)).generation
    ensures forall st :: st in Promote(s, lib, num + 1, now).proposed ==> st.num <= num
  {
    hide Cut;
    var c := Cut(s, lib);
    QueueSuffix(s.proposed, c, LastPending(s).generation, num, generation);
    assert c == 0 ==> s.proposed[c..] == s.proposed;
  }

  lemma StepKeepsOrder(s: PolicyState, num: nat, x: Input, generation: nat)
    requires Ordered(s, num, generation)
    requires Acceptable(x, num + 1, generation)
    ensures Ordered(Step(s, num + 1, x), num + 1, NextGeneration(generation, x))
    ensures s.active.generation <= Step(s, num + 1, x).active.generation
    ensures LastPending(s).generation <= LastPending(Step(s, num + 1, x)).generation
  {
    hide Promote, Queue;
    PromoteKeepsOrder(s, num, x.lib, x.timestamp, generation);
    if x.proposal.Some? {
      var p := Promote(s, x.lib, num + 1, x.timestamp);
      QueueAppend(p.proposed, LastPending(p).generation, num + 1, generation, x.proposal.value);
    }
  }

  // ---- whole runs ---------------------------------------------------------------------

  /** The active policy changes only by activating the pending one, and only once LIB has
      reached its stamp; until then the pending slot is untouched. */
  lemma StepActive(s: PolicyState, num: nat, x: Input)
    ensures var t := Step(s, num, x);
      && (if s.pending.Some? && s.pending.value.num <= x.lib then
            t.active == s.pending.value.policy && (t.pending.Some? ==> t.pending.value.num == num)
          else t.active == s.active && (s.pending.Some? ==> t.pending == s.pending))
      && (t.pending.Some? && t.pending != s.pending ==> t.pending.value.num == num)
  {
  }

  /** The start of the pending period is this block's time when a policy becomes pending in it,
      and otherwise stays. */
  lemma StepPendingStart(s: PolicyState, num: nat, x: Input)
    requires s.pending.Some? ==> s.pending.value.num < num
    ensures var t := Step(s, num, x);
      t.lastPendingStart == if t.pending.Some? && t.pending.value.num == num then x.timestamp else s.lastPendingStart
  {
  }

  /** Where the policies of the next state come from. */
  lemma StepSources(s: PolicyState, num: nat, x: Input)
    ensures var t := Step(s, num, x);
      && (t.active == s.active || (s.pending.Some? && t.active == s.pending.value.policy))
      && (t.pending.Some? ==>
            t.pending == s.pending
            || exists i :: 0 <= i < |s.proposed| && s.proposed[i].num <= x.lib && s.proposed[i].policy == t.pending.value.policy)
      && (forall st :: st in t.proposed ==> st in s.proposed || (x.proposal.Some? && st == Stamped(num, x.proposal.value)))
  {
    var c := Cut(s, x.lib);
    assert c > 0 ==> s.proposed[c - 1].num <= x.lib;
  }

  function GenerationTo(g0: nat, xs: seq<Input>, k: nat): (g: nat)
    requires k <= |xs|
  {
    if k == 0 then g0 else NextGeneration(GenerationTo(g0, xs, k - 1), xs[k - 1])
  }

  ghost predicate AcceptableRun(base: nat, g0: nat, xs: seq<Input>) {
    forall k {:trigger xs[k]} :: 0 <= k < |xs| ==> Acceptable(xs[k], base + k + 1, GenerationTo(g0, xs, k))
  }

  lemma {:induction false} RunKeepsOrder(s0: PolicyState, base: nat, g0: nat, xs: seq<Input>, k: nat)
    requires k <= |xs| && AcceptableRun(base, g0, xs) && Ordered(s0, base, g0)
    ensures Ordered(RunTo(s0, base, xs, k), base + k, GenerationTo(g0, xs, k))
  {
    hide Step, Ordered;
    if k == 0 {
    } else {
      RunKeepsOrder(s0, base, g0, xs, k - 1);
      StepKeepsOrder(RunTo(s0, base, xs, k - 1), base + k - 1, xs[k - 1], GenerationTo(g0, xs, k - 1));
    }
  }

  /** The active generation never falls, and an equal generation is the very same policy:
      a policy that has been replaced is never active again. */
  lemma {:induction false} ActiveNeverReturns(s0: PolicyState, base: nat, g0: nat, xs: seq<Input>, i: nat, j: nat)
    requires i <= j <= |xs| && AcceptableRun(base, g0, xs) && Ordered(s0, base, g0)
    ensures var a, b := RunTo(s0, base, xs, i).active, RunTo(s0, base, xs, j).active;
      a.generation <= b.generation && (a.generation == b.generation ==> a == b)
  {
    hide Step, Queue, AcceptableRun;
    if i == j {
    } else {
      ActiveNeverReturns(s0, base, g0, xs, i, j - 1);
      RunKeepsOrder(s0, base, g0, xs, j - 1);
      StepActive(RunTo(s0, base, xs, j - 1), base + j, xs[j - 1]);
    }
  }

  /** A pending policy is never dropped or overtaken: while LIB stays below its stamp it
      keeps the slot and nothing is activated, and the first block whose LIB reaches the
      stamp activates exactly it. */
  lemma {:induction false} PendingIsNextActive(s0: PolicyState, base: nat, xs: seq<Input>, i: nat, j: nat)
    requires i <= j <= |xs|
    requires RunTo(s0, base, xs, i).pending.Some?
    requires forall m {:trigger xs[m]} :: i <= m < j ==> xs[m].lib < RunTo(s0, base, xs, i).pending.value.num
    ensures RunTo(s0, base, xs, j).pending == RunTo(s0, base, xs, i).pending
    ensures RunTo(s0, base, xs, j).active == RunTo(s0, base, xs, i).active
    ensures j < |xs| && xs[j].lib >= RunTo(s0, base, xs, i).pending.value.num ==>
      RunTo(s0, base, xs, j + 1).active == RunTo(s0, base, xs, i).pending.value.policy
  {
    hide Step;
    if i == j {
    } else {
      PendingIsNextActive(s0, base, xs, i, j - 1);
      StepActive(RunTo(s0, base, xs, j - 1), base + j, xs[j - 1]);
    }
    if j < |xs| {
      StepActive(RunTo(s0, base, xs, j), base + j + 1, xs[j]);
    }
  }

  /** Every block n of the run after the first has LIB n - lag, and only the first proposes. */
  ghost predicate SteadyLag(base: nat, xs: seq<Input>, lag: nat) {
    forall k {:trigger xs[k]} :: 0 < k < |xs| ==> xs[k].lib + lag == base + k + 1 && xs[k].proposal.None?
  }

  /** Where a policy proposed into an empty pipeline in block base + 1 is, k blocks on. */
  function LatencyState(s0: PolicyState, q: nat, p: Policy, lag: nat, now: nat, k: nat): (s: PolicyState)
    requires 0 < k
  {
    if k <= lag then s0.(proposed := [Stamped(q, p)])
    else if k <= 2 * lag then PolicyState(s0.active, Some(Stamped(q + lag, p)), [], now)
    else PolicyState(p, None, [], now)
  }

  /** Exact latency: proposed in block q, pending in block q + lag, active in block
      q + 2 * lag and not before. */
  lemma {:induction false} ExactLatency(s0: PolicyState, base: nat, xs: seq<Input>, lag: nat, k: nat)
    requires 0 < k <= |xs| && 0 < lag
    requires s0.pending.None? && s0.proposed == [] && xs[0].proposal.Some?
    requires SteadyLag(base, xs, lag)
    ensures RunTo(s0, base, xs, k) ==
      LatencyState(s0, base + 1, xs[0].proposal.value, lag, if lag < |xs| then xs[lag].timestamp else 0, k)
  {
    if k == 1 {
      assert RunTo(s0, base, xs, 1) == Step(RunTo(s0, base, xs, 0), base + 1, xs[0]);
      assert [] + [Stamped(base + 1, xs[0].proposal.value)] == [Stamped(base + 1, xs[0].proposal.value)];
    } else {
      ExactLatency(s0, base, xs, lag, k - 1);
      assert xs[k - 1].lib + lag == base + k;
    }
  }

  /** A promotion respects q <= LIB(p) < p, and an activation p <= LIB(a) < a. */
  lemma PromotionTiming(s: PolicyState, num: nat, x: Input, generation: nat)
    requires Ordered(s, num, generation) && Acceptable(x, num + 1, generation)
    ensures var t := Step(s, num + 1, x);
      && (t.active != s.active ==>
            s.pending == Some(Stamped(s.pending.value.num, t.active)) && s.pending.value.num <= x.lib < num + 1)
      && (t.pending.Some? && t.pending != s.pending ==>
            && t.pending.value.num == num + 1
            && exists i :: 0 <= i < |s.proposed| && s.proposed[i].num <= x.lib < num + 1
                 && s.proposed[i].policy == t.pending.value.policy)
  {
    var c := Cut(s, x.lib);
    if c > 0 {
      assert s.proposed[c - 1].num <= x.lib;
    }
  }

  // ---- nothing is lost silently --------------------------------------------------------

  /** What has become of a queued proposal: still queued, moved to pending by block number
      `at` blocks into the run, or dropped by that block in favour of a later proposal. */
  datatype Fate = Queued | Promoted(at: nat) | Superseded(at: nat, later: Stamped)

  ghost predicate FateHolds(f: Fate, st: Stamped, s0: PolicyState, base: nat, xs: seq<Input>, j: nat)
    requires j <= |xs|
  {
    match f
    case Queued => st in RunTo(s0, base, xs, j).proposed
    case Promoted(at) =>
      && 0 < at <= j && st.num <= xs[at - 1].lib
      && RunTo(s0, base, xs, at).pending == Some(Stamped(base + at, st.policy))
    case Superseded(at, later) =>
      && 0 < at <= j && st.num < later.num <= xs[at - 1].lib
      && later in RunTo(s0, base, xs, at - 1).proposed
  }

  /** One block either keeps a queued proposal, promotes it, or drops it because a later
      one is already at or below LIB; above LIB nothing is dropped. */
  lemma StepFate(s: PolicyState, num: nat, x: Input, generation: nat, i: nat)
    requires Ordered(s, num, generation) && i < |s.proposed|
    ensures var t, st, c := Step(s, num + 1, x), s.proposed[i], Cut(s, x.lib);
      if c <= i then i - c < |t.proposed| && t.proposed[i - c] == st
      else
        && st.num <= x.lib
        && if SlotOpen(s, x.lib) && i == c - 1 then t.pending == Some(Stamped(num + 1, st.policy))
           else i + 1 < |s.proposed| && st.num < s.proposed[i + 1].num <= x.lib
  {
    hide Step, Cut, SlotOpen;
    StepQueue(s, num + 1, x, i);
    if i < Cut(s, x.lib) { CutFate(s, num, x.lib, generation, i); }
  }

  lemma StepQueue(s: PolicyState, num: nat, x: Input, i: nat)
    requires i < |s.proposed|
    ensures var t, c := Step(s, num, x), Cut(s, x.lib);
      && (c <= i ==> i - c < |t.proposed| && t.proposed[i - c] == s.proposed[i])
      && (SlotOpen(s, x.lib) && c > 0 ==> t.pending == Some(Stamped(num, s.proposed[c - 1].policy)))
  {
    hide Cut;
  }

  // What is cut and not promoted is followed by a proposal at or below LIB.
  lemma CutFate(s: PolicyState, num: nat, lib: nat, generation: nat, i: nat)
    requires Ordered(s, num, generation) && i < Cut(s, lib)
    ensures s.proposed[i].num <= lib
    ensures !(SlotOpen(s, lib) && i == Cut(s, lib) - 1) ==>
      i + 1 < |s.proposed| && s.proposed[i].num < s.proposed[i + 1].num <= lib
  {
    hide FirstReversible;
    assert !SlotOpen(s, lib) ==> FirstReversible(s.proposed, lib) == Cut(s, lib) + 1;
  }

  /** No proposal is lost silently: in any run, each queued proposal has a fate. */
  lemma {:induction false} NothingLost(
    s0: PolicyState, base: nat, g0: nat, xs: seq<Input>, i: nat, j: nat, st: Stamped) returns (f: Fate)
    requires i <= j <= |xs| && AcceptableRun(base, g0, xs) && Ordered(s0, base, g0)
    requires st in RunTo(s0, base, xs, i).proposed
    ensures FateHolds(f, st, s0, base, xs, j)
  {
    hide Step, Ordered, Cut, AcceptableRun;
    if i == j {
      f := Queued;
    } else {
      f := NothingLost(s0, base, g0, xs, i, j - 1, st);
      if f == Queued {
        var s := RunTo(s0, base, xs, j - 1);
        RunKeepsOrder(s0, base, g0, xs, j - 1);
        var m :| 0 <= m < |s.proposed| && s.proposed[m] == st;
        StepFate(s, base + j - 1, xs[j - 1], GenerationTo(g0, xs, j - 1), m);
        var c := Cut(s, xs[j - 1].lib);
        if m < c {
          f := if SlotOpen(s, xs[j - 1].lib) && m == c - 1 then Promoted(j) else Superseded(j, s.proposed[m + 1]);
        }
      }
    }
  }
}
