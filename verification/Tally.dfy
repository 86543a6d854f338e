/**
  Vote aggregation for one block under one policy: the five-state tally, updated in place,
  its limit on weak votes, and the signature it offers.
 */
module Tally {
  import opened Options
  import opened Policies
  import opened Certificates

  datatype AggState = Unrestricted | Restricted | WeakAchieved | WeakFinal | Strong

  predicate QuorumMet(s: AggState) {
    s == Strong || s == WeakAchieved || s == WeakFinal
  }

  /** The value of an aggregating signature. */
  datatype Votes = Votes(
    strong: Bits, weak: Bits, strongSum: nat, weakSum: nat, state: AggState,
    strongSig: multiset<Signature>, weakSig: multiset<Signature>)

  // ---- the weak limit -----------------------------------------------------------------------

  /** Conversion to a 32-bit signed integer. */
  function ToInt32(x: int): (r: int)
    ensures -INT32_LIMIT <= r < INT32_LIMIT
  {
    var m := x % UINT32_LIMIT;
    if m < INT32_LIMIT then m else m - UINT32_LIMIT
  }

  function ToUint64(x: int): (r: nat)
    ensures r < UINT64_LIMIT
  {
    x % UINT64_LIMIT
  }

  /** The weights are accumulated in an `int`, so each partial sum is cut to 32 bits. */
  function AccumulateTo(fs: seq<Authority>, n: nat): (acc: int)
    requires n <= |fs|
  {
    if n == 0 then 0 else ToInt32(ToUint64(ToUint64(AccumulateTo(fs, n - 1)) + fs[n - 1].weight))
  }

  function MaxWeakSum(p: Policy): (m: nat) {
    ToUint64(ToUint64(AccumulateTo(p.finalizers, |p.finalizers|)) - p.threshold)
  }

  method ComputeMaxWeakSum(p: Policy) returns (m: nat)
    ensures m == MaxWeakSum(p)
  {
    var acc: int := 0;
    for i := 0 to |p.finalizers|
      invariant acc == AccumulateTo(p.finalizers, i)
    {
      acc := ToInt32(ToUint64(ToUint64(acc) + p.finalizers[i].weight));
    }
    m := ToUint64(ToUint64(acc) - p.threshold);
  }

  lemma Int32Wraps(x: int) returns (k: int)
    ensures x == ToInt32(x) + UINT32_LIMIT * k
  {
    k := (x - ToInt32(x)) / UINT32_LIMIT;
  }

  lemma Uint64Wraps(x: int) returns (k: int)
    ensures x == ToUint64(x) + UINT64_LIMIT * k
  {
    k := x / UINT64_LIMIT;
  }

  lemma Int32Same(x: int, y: int, k: int)
    requires x == y + UINT32_LIMIT * k
    ensures ToInt32(x) == ToInt32(y)
  {
    assert x % UINT32_LIMIT == y % UINT32_LIMIT;
  }

  lemma Int32OfSum(x: int, w: nat)
    ensures ToInt32(ToUint64(ToUint64(ToInt32(x)) + w)) == ToInt32(x + w)
  {
    hide ToInt32, ToUint64;
    var a := ToInt32(x);
    var b := ToUint64(a);
    var k := Int32Wraps(x);
    var j := Uint64Wraps(a);
    var i := Uint64Wraps(b + w);
    Int32Same(x + w, ToUint64(b + w), UINT32_LIMIT * (i + j) + k);
  }

  lemma {:induction false} AccumulateIsTruncated(fs: seq<Authority>, n: nat)
    requires n <= |fs|
    ensures AccumulateTo(fs, n) == ToInt32(TotalTo(fs, n))
  {
    if n == 0 {
    } else {
      AccumulateIsTruncated(fs, n - 1);
      Int32OfSum(TotalTo(fs, n - 1), fs[n - 1].weight);
    }
  }

  lemma Uint64Cases(x: int)
    requires -UINT64_LIMIT <= x < UINT64_LIMIT
    ensures ToUint64(x) == if x < 0 then x + UINT64_LIMIT else x
  {
  }

  /** 32-bit truncation of an unsigned 64-bit value below 2^31, in the top 2^31, or between. */
  lemma Int32Cases(w: nat)
    requires w < UINT64_LIMIT
    ensures w < INT32_LIMIT ==> ToInt32(w) == w
    ensures w >= UINT64_LIMIT - INT32_LIMIT ==> ToInt32(w) == w - UINT64_LIMIT
    ensures INT32_LIMIT <= w < UINT32_LIMIT ==> ToInt32(w) == w - UINT32_LIMIT
  {
    if w >= UINT64_LIMIT - INT32_LIMIT {
      var r := w - (UINT64_LIMIT - UINT32_LIMIT);
      assert w == r + UINT32_LIMIT * (UINT32_LIMIT - 1);
      assert w % UINT32_LIMIT == r;
    }
  }

  lemma LimitArithmetic(w: nat, t: nat)
    requires w < UINT64_LIMIT && w / 2 < t <= w
    ensures ToUint64(ToUint64(ToInt32(w)) - t) >= w - t
    ensures ToUint64(ToUint64(ToInt32(w)) - t) == w - t <==> w < INT32_LIMIT || w >= UINT64_LIMIT - INT32_LIMIT
  {
    hide ToInt32, ToUint64;
    var s := ToInt32(w);
    Int32Cases(w);
    Uint64Cases(s);
    Uint64Cases(ToUint64(s) - t);
  }

  /** The limit is never below W - t, and it is W - t exactly when the 32-bit accumulation
      does not change the total modulo 2^64. */
  lemma MaxWeakSumIsExact(p: Policy)
    requires WellFormed(p)
    ensures MaxWeakSum(p) >= Total(p) - p.threshold
    ensures MaxWeakSum(p) == Total(p) - p.threshold <==>
      Total(p) < INT32_LIMIT || Total(p) >= UINT64_LIMIT - INT32_LIMIT
  {
    hide ToInt32, ToUint64;
    AccumulateIsTruncated(p.finalizers, |p.finalizers|);
    LimitArithmetic(Total(p), p.threshold);
  }

  // ---- one policy's tally -------------------------------------------------------------------

  /** One finalizer of weight 2^31 with that threshold: the intended limit is zero, the
      computed one is not. */
  lemma LimitCanBeTooHigh()
    ensures var p := Policy(1, INT32_LIMIT, [Authority(0, INT32_LIMIT)]);
      WellFormed(p) && Total(p) - p.threshold == 0 && MaxWeakSum(p) > 0
  {
    hide MaxWeakSum;
    var p := Policy(1, INT32_LIMIT, [Authority(0, INT32_LIMIT)]);
    assert TotalTo(p.finalizers, 1) == TotalTo(p.finalizers, 0) + INT32_LIMIT;
    MaxWeakSumIsExact(p);
  }

  function NoVotes(n: nat): (t: Votes) {
    Votes(seq(n, _ => false), seq(n, _ => false), 0, 0, Unrestricted, multiset{}, multiset{})
  }

  predicate HasVoted(t: Votes, i: nat)
    requires i < |t.strong| == |t.weak|
  {
    t.strong[i] || t.weak[i]
  }

  function StateAfterStrong(state: AggState, strongSum: nat, weakSum: nat, quorum: nat): (s: AggState) {
    match state
    case Unrestricted =>
      if strongSum >= quorum then Strong
      else if (weakSum + strongSum) % UINT64_LIMIT >= quorum then WeakAchieved else Unrestricted
    case Restricted =>
      if strongSum >= quorum then Strong
      else if (weakSum + strongSum) % UINT64_LIMIT >= quorum then WeakFinal else Restricted
    case WeakAchieved => if strongSum >= quorum then Strong else WeakAchieved
    case WeakFinal => WeakFinal
    case Strong => Strong
  }

  /** The limit is compared with `>` before the quorum is reached and with `>=` after. */
  function StateAfterWeak(state: AggState, strongSum: nat, weakSum: nat, quorum: nat, maxWeak: nat): (s: AggState) {
    match state
    case WeakAchieved => if weakSum >= maxWeak then WeakFinal else WeakAchieved
    case WeakFinal => WeakFinal
    case Strong => Strong
    case _ =>
      if (weakSum + strongSum) % UINT64_LIMIT >= quorum then
        if weakSum > maxWeak then WeakFinal else WeakAchieved
      else if weakSum > maxWeak then Restricted
      else state
  }

  /** `add_vote`; a finalizer that has voted is a duplicate and changes nothing. */
  function AddVote(t: Votes, quorum: nat, maxWeak: nat, i: nat, weight: nat, strong: bool, sig: Signature): (u: Votes)
    requires i < |t.strong| == |t.weak|
    ensures |u.strong| == |u.weak| == |t.strong|
  {
    if HasVoted(t, i) then t
    else if strong then
      var sum := (t.strongSum + weight) % UINT64_LIMIT;
      t.(strong := t.strong[i := true], strongSum := sum, strongSig := t.strongSig + multiset{sig},
         state := StateAfterStrong(t.state, sum, t.weakSum, quorum))
    else
      var sum := (t.weakSum + weight) % UINT64_LIMIT;
      t.(weak := t.weak[i := true], weakSum := sum, weakSig := t.weakSig + multiset{sig},
         state := StateAfterWeak(t.state, t.strongSum, sum, quorum, maxWeak))
  }

  /** An aggregating signature, updated in place vote by vote. */
  class AggregatingQcSig {
    const quorum: nat
    const maxWeakSum: nat
    const strongVotes: array<bool>
    const weakVotes: array<bool>
    var received: Option<QcSig>
    var state: AggState
    var strongSum: nat
    var weakSum: nat
    var strongSig: multiset<Signature>
    var weakSig: multiset<Signature>

    ghost predicate Valid() {
      strongVotes != weakVotes && strongVotes.Length == weakVotes.Length
    }

    function View(): (t: Votes)
      reads this, strongVotes, weakVotes
    {
      Votes(strongVotes[..], weakVotes[..], strongSum, weakSum, state, strongSig, weakSig)
    }

    constructor (p: Policy)
      ensures Valid() && fresh(strongVotes) && fresh(weakVotes)
      ensures quorum == p.threshold && maxWeakSum == MaxWeakSum(p)
      ensures strongVotes.Length == |p.finalizers|
      ensures received == None && View() == NoVotes(|p.finalizers|)
    {
      quorum := p.threshold;
      var m := ComputeMaxWeakSum(p);
      maxWeakSum := m;
      strongVotes := new bool[|p.finalizers|](_ => false);
      weakVotes := new bool[|p.finalizers|](_ => false);
      received, state := None, Unrestricted;
      strongSum, weakSum := 0, 0;
      strongSig, weakSig := multiset{}, multiset{};
      new;
      assert strongVotes[..] == NoVotes(|p.finalizers|).strong;
      assert weakVotes[..] == NoVotes(|p.finalizers|).weak;
    }

    method AddStrongVote(i: nat, sig: Signature, weight: nat)
      requires Valid() && i < strongVotes.Length && !HasVoted(View(), i)
      modifies this, strongVotes
      ensures View() == AddVote(old(View()), quorum, maxWeakSum, i, weight, true, sig) && received == old(received)
    {
      strongVotes[i] := true;
      strongSig := strongSig + multiset{sig};
      strongSum := (strongSum + weight) % UINT64_LIMIT;
      if state == Unrestricted || state == Restricted {
        if strongSum >= quorum {
          state := Strong;
        } else if (weakSum + strongSum) % UINT64_LIMIT >= quorum {
          state := if state == Restricted then WeakFinal else WeakAchieved;
        }
      } else if state == WeakAchieved && strongSum >= quorum {
        state := Strong;
      }
      assert strongVotes[..] == old(strongVotes[..])[i := true];
    }

    method AddWeakVote(i: nat, sig: Signature, weight: nat)
      requires Valid() && i < strongVotes.Length && !HasVoted(View(), i)
      modifies this, weakVotes
      ensures View() == AddVote(old(View()), quorum, maxWeakSum, i, weight, false, sig) && received == old(received)
    {
      weakVotes[i] := true;
      weakSig := weakSig + multiset{sig};
      weakSum := (weakSum + weight) % UINT64_LIMIT;
      if state == Unrestricted || state == Restricted {
        if (weakSum + strongSum) % UINT64_LIMIT >= quorum {
          state := WeakAchieved;
        }
        if weakSum > maxWeakSum {
          if state == WeakAchieved {
            state := WeakFinal;
          } else if state == Unrestricted {
            state := Restricted;
          }
        }
      } else if state == WeakAchieved && weakSum >= maxWeakSum {
        state := WeakFinal;
      }
      assert weakVotes[..] == old(weakVotes[..])[i := true];
    }

    method Add(strong: bool, i: nat, sig: Signature, weight: nat) returns (duplicate: bool)
      requires Valid() && i < strongVotes.Length
      modifies this, strongVotes, weakVotes
      ensures duplicate == old(HasVoted(View(), i))
      ensures View() == AddVote(old(View()), quorum, maxWeakSum, i, weight, strong, sig) && received == old(received)
    {
      duplicate := strongVotes[i] || weakVotes[i];
      if !duplicate {
        if strong {
          AddStrongVote(i, sig, weight);
        } else {
          AddWeakVote(i, sig, weight);
        }
      }
    }

    /** Strong beats weak; on a tie the received signature wins. */
    method GetBestQc() returns (r: Option<QcSig>)
      requires Valid()
      ensures r == BestQcSig(View(), received)
    {
      if !QuorumMet(state) {
        return received;
      }
      var own := if state == Strong then QcSig(Some(strongVotes[..]), None, strongSig)
                 else QcSig(Some(strongVotes[..]), Some(weakVotes[..]), strongSig + weakSig);
      if received.None? {
        return Some(own);
      }
      if SigIsStrong(received.value) || !SigIsStrong(own) {
        return received;
      }
      return Some(own);
    }

    method SetReceived(s: QcSig) returns (better: bool)
      modifies this
      ensures better <==> old(received).None? || (!SigIsStrong(old(received).value) && SigIsStrong(s))
      ensures received == (if better then Some(s) else old(received)) == Keep(old(received), s)
      ensures View() == old(View())
    {
      better := received.None? || (!SigIsStrong(received.value) && SigIsStrong(s));
      if better {
        received := Some(s);
      }
    }
  }

  /** The certificate a tally with quorum stands for; a strong one omits the weak votes. */
  function Extract(t: Votes): (s: QcSig) {
    if t.state == Strong then QcSig(Some(t.strong), None, t.strongSig)
    else QcSig(Some(t.strong), Some(t.weak), t.strongSig + t.weakSig)
  }

  function BestQcSig(t: Votes, received: Option<QcSig>): (r: Option<QcSig>) {
    if QuorumMet(t.state) && (received.None? || (t.state == Strong && !SigIsStrong(received.value)))
    then Some(Extract(t)) else received
  }

  /** What is stored once `s` has been received: the first signature, or the first strong one. */
  function Keep(stored: Option<QcSig>, s: QcSig): (r: Option<QcSig>) {
    if stored.None? || (!SigIsStrong(stored.value) && SigIsStrong(s)) then Some(s) else stored
  }
}
