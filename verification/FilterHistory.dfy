/** What the address filter knows after any run of additions and expiry calls. */
module FilterHistory {
  import opened IcaoFilter

  datatype Event =
    | Add(time: int, addr: bv32)   // icaoFilterAdd
    | Expire(time: int)            // icaoFilterExpire, called at this time
    | Other(time: int)             // anything that leaves the filter alone

  function Apply(v: View, e: Event): View {
    match e
    case Add(_, addr) => v.Add(addr)
    case Expire(now) => v.Expire(now)
    case Other(_) => v
  }

  function After(v: View, es: seq<Event>): View {
    if es == [] then v else Apply(After(v, es[..|es| - 1]), es[|es| - 1])
  }

  predicate IsFlip(v: View, e: Event) {
    e.Expire? && v.Due(e.time)
  }

  /** How often the generations changed. */
  function Flips(v: View, es: seq<Event>): nat {
    if es == [] then 0
    else Flips(v, es[..|es| - 1]) + (if IsFlip(After(v, es[..|es| - 1]), es[|es| - 1]) then 1 else 0)
  }

  predicate AddedAt(es: seq<Event>, i: nat, addr: bv32) {
    i < |es| && es[i].Add? && es[i].addr == addr
  }

  ghost predicate AddedAtGeneration(v: View, es: seq<Event>, addr: bv32, ago: nat, i: nat) {
    AddedAt(es, i, addr) && Flips(v, es[..i]) + ago == Flips(v, es)
  }

  /** addr was added exactly `ago` generations before the end of the run. */
  ghost predicate AddedIn(v: View, es: seq<Event>, addr: bv32, ago: nat) {
    exists i: nat :: AddedAtGeneration(v, es, addr, ago, i)
  }

  function FlipBy(v: View, es: seq<Event>, e: Event): nat {
    if IsFlip(After(v, es), e) then 1 else 0
  }

  lemma ExtendRun(v: View, es: seq<Event>, e: Event)
    ensures (es + [e])[..|es|] == es
    ensures Flips(v, es + [e]) == Flips(v, es) + FlipBy(v, es, e)
    ensures After(v, es + [e]) == Apply(After(v, es), e)
  {
    assert (es + [e])[..|es|] == es;
  }

  lemma WitnessExtends(v: View, es: seq<Event>, e: Event, addr: bv32, ago: nat, i: nat)
    requires i < |es|
    ensures AddedAtGeneration(v, es + [e], addr, ago, i) <==> (
      && ago >= FlipBy(v, es, e)
      && AddedAtGeneration(v, es, addr, ago - FlipBy(v, es, e), i))
  {
    hide After, IsFlip;
    ExtendRun(v, es, e);
    assert (es + [e])[..i] == es[..i];
    FlipsMonotone(v, es, i);
  }

  lemma AddedInExtends(v: View, es: seq<Event>, e: Event, addr: bv32, ago: nat)
    ensures AddedIn(v, es + [e], addr, ago) <==> (
      || (ago >= FlipBy(v, es, e) && AddedIn(v, es, addr, ago - FlipBy(v, es, e)))
      || (e.Add? && e.addr == addr && ago == 0))
  {
    ExtendRun(v, es, e);
    var all := es + [e];
    var flip := FlipBy(v, es, e);
    if AddedIn(v, all, addr, ago) {
      var i: nat :| AddedAtGeneration(v, all, addr, ago, i);
      if i < |es| {
        WitnessExtends(v, es, e, addr, ago, i);
      }
    }
    if ago >= flip && AddedIn(v, es, addr, ago - flip) {
      var i: nat :| AddedAtGeneration(v, es, addr, ago - flip, i);
      WitnessExtends(v, es, e, addr, ago, i);
    }
    if e.Add? && e.addr == addr && ago == 0 {
      assert AddedAtGeneration(v, all, addr, 0, |es|);
    }
  }

  lemma {:induction false} FlipsMonotone(v: View, es: seq<Event>, i: nat)
    requires i <= |es|
    ensures Flips(v, es[..i]) <= Flips(v, es)
    decreases |es|
  {
    if i == |es| {
      assert es[..i] == es;
    } else {
      var t := es[..|es| - 1];
      assert t[..i] == es[..i];
      FlipsMonotone(v, t, i);
    }
  }

  /** The filter knows exactly the addresses added in the current or the previous generation.
      `start` is a freshly initialised filter. */
  lemma {:induction false} KnowsExactly(start: View, es: seq<Event>, addr: bv32)
    requires start.current == {} && start.previous == {}
    ensures addr in After(start, es).current <==> AddedIn(start, es, addr, 0)
    ensures addr in After(start, es).previous <==> AddedIn(start, es, addr, 1)
  {
    if es != [] {
      var t, e := es[..|es| - 1], es[|es| - 1];
      assert es == t + [e];
      KnowsExactly(start, t, addr);
      AddedInExtends(start, t, e, addr, 0);
      AddedInExtends(start, t, e, addr, 1);
    }
  }

  lemma KnowsIffRecent(start: View, es: seq<Event>, addr: bv32)
    requires start.current == {} && start.previous == {}
    ensures After(start, es).Knows(addr) <==> AddedIn(start, es, addr, 0) || AddedIn(start, es, addr, 1)
  {
    KnowsExactly(start, es, addr);
  }

  predicate Ordered(es: seq<Event>) {
    forall i, j :: 0 <= i <= j < |es| ==> es[i].time <= es[j].time
  }

  /** An address is never forgotten within 60 seconds of an addition. */
  lemma {:induction false} NotForgottenTooSoon(start: View, es: seq<Event>, i: nat, addr: bv32)
    requires Ordered(es) && AddedAt(es, i, addr)
    requires es[|es| - 1].time < es[i].time + 60000
    ensures var v := After(start, es);
      addr in v.current || (addr in v.previous && es[i].time + TTL <= v.nextFlip)
    decreases |es|
  {
    if i < |es| - 1 {
      var t := es[..|es| - 1];
      NotForgottenTooSoon(start, t, i, addr);
    }
  }

  /** Two changes of generation without a new addition in between forget an address. */
  lemma ForgottenAfterTwoFlips(start: View, es: seq<Event>, k: nat, addr: bv32)
    requires start.current == {} && start.previous == {}
    requires k <= |es| && Flips(start, es) >= Flips(start, es[..k]) + 2
    requires forall i: nat :: k <= i < |es| ==> !AddedAt(es, i, addr)
    ensures !After(start, es).Knows(addr)
  {
    KnowsIffRecent(start, es, addr);
    forall i: nat | AddedAt(es, i, addr) ensures Flips(start, es) >= Flips(start, es[..i]) + 2 {
      assert es[..k][..i] == es[..i];
      FlipsMonotone(start, es[..k], i);
    }
  }

  /** The next change of generation is never more than 60 seconds away. */
  lemma {:induction false} NextFlipIsNear(start: View, es: seq<Event>)
    requires Ordered(es) && es != [] && start.nextFlip <= es[0].time + 60000
    ensures After(start, es).nextFlip <= es[|es| - 1].time + 60000
    decreases |es|
  {
    if |es| > 1 {
      NextFlipIsNear(start, es[..|es| - 1]);
    } else {
      assert es[..0] == [];
    }
  }

  lemma {:induction false} NoFlipInBetween(start: View, es: seq<Event>, k: nat)
    requires k <= |es| && Flips(start, es) == Flips(start, es[..k])
    ensures After(start, es).nextFlip == After(start, es[..k]).nextFlip
    decreases |es|
  {
    if k == |es| {
      assert es[..k] == es;
    } else {
      var t := es[..|es| - 1];
      assert t[..k] == es[..k];
      FlipsMonotone(start, t, k);
      NoFlipInBetween(start, t, k);
    }
  }

  /** A call of expiry that comes late enough finds the generations changed or changes them. */
  lemma FlipHappens(start: View, es: seq<Event>, k: nat, i: nat)
    requires k <= i < |es| && es[i].Expire? && After(start, es[..k]).nextFlip <= es[i].time
    ensures Flips(start, es[..i + 1]) > Flips(start, es[..k])
  {
    var t := es[..i + 1];
    assert t[..i] == es[..i] && es[..i][..k] == es[..k];
    FlipsMonotone(start, es[..i], k);
    if Flips(start, es[..i]) == Flips(start, es[..k]) {
      NoFlipInBetween(start, es[..i], k);
    }
  }

  /** An address that is not added again is forgotten by the second of two calls of expiry that come
      60 seconds after its last possible addition and 60 seconds after the first. */
  lemma ForgottenInTime(start: View, es: seq<Event>, k: nat, i: nat, j: nat, addr: bv32)
    requires start.current == {} && start.previous == {} && Ordered(es)
    requires 0 < k <= i < j < |es| && start.nextFlip <= es[0].time + 60000
    requires forall n: nat :: k <= n < |es| ==> !AddedAt(es, n, addr)
    requires es[i].Expire? && es[i].time >= es[k - 1].time + 60000
    requires es[j].Expire? && es[j].time >= es[i].time + 60000
    ensures !After(start, es).Knows(addr)
  {
    hide After, Flips;
    NextFlipIsNear(start, es[..k]);
    FlipHappens(start, es, k, i);
    NextFlipIsNear(start, es[..i + 1]);
    FlipHappens(start, es, i + 1, j);
    FlipsMonotone(start, es, j + 1);
    ForgottenAfterTwoFlips(start, es, k, addr);
  }

  // ---- Full tables -----------------------------------------------------------------------

  /** One step of the real filter: a full table drops an addition. */
  predicate StepOrDrop(v: View, e: Event, v': View) {
    v' == if e.Add? && |v.current| >= SIZE then v else Apply(v, e)
  }

  predicate IsRun(views: seq<View>, es: seq<Event>) {
    |views| == |es| + 1 && forall i :: 0 <= i < |es| ==> StepOrDrop(views[i], es[i], views[i + 1])
  }

  /** While the current table has room, nothing is dropped. */
  lemma {:induction false} NothingDropped(views: seq<View>, es: seq<Event>)
    requires IsRun(views, es)
    requires forall i :: 0 <= i < |es| ==> |views[i].current| < SIZE
    ensures views[|es|] == After(views[0], es)
    decreases |es|
  {
    if es != [] {
      var n := |es| - 1;
      assert views[..n + 1][n] == views[n];
      NothingDropped(views[..n + 1], es[..n]);
      assert StepOrDrop(views[n], es[n], views[n + 1]);
    }
  }

  /** Dropping additions only ever makes the filter know less. */
  lemma {:induction false} DroppingKnowsLess(views: seq<View>, es: seq<Event>)
    requires IsRun(views, es)
    ensures var kept, all := views[|es|], After(views[0], es);
      kept.current <= all.current && kept.previous <= all.previous && kept.nextFlip == all.nextFlip
  {
    if es != [] {
      var n := |es| - 1;
      assert views[..n + 1][n] == views[n];
      DroppingKnowsLess(views[..n + 1], es[..n]);
      assert StepOrDrop(views[n], es[n], views[n + 1]);
    }
  }
}
