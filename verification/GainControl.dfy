/** The gain controller of the adaptive gain control (adaptive.c): once per block, burst and
    dynamic range measurements vote on the gain. */
module GainControl {
  datatype Config = Config(
    min: int, max: int,             // gain steps
    burst: bool, range: bool,       // enabled controls
    burstDelay: nat, rangeDelay: nat, rescanDelay: nat,
    loudRunlength: nat, quietRunlength: nat)

  predicate ValidConfig(c: Config) {
    c.min <= c.max
  }

  datatype Scan = Idle | Up | Down

  datatype State = State(
    gain: int, limit: int,
    burstTimer: nat, rangeTimer: nat, rescanTimer: nat,
    loudBlocks: nat, quietBlocks: nat,
    scan: Scan)

  /** The outcome of the comparisons of one block: loud undecoded messages above their rate, loud
      decoded messages below theirs, range at least the target, range plus half a gain step below
      the target. */
  datatype Measurement = Measurement(loud: bool, quiet: bool, acceptable: bool, fell: bool)

  /** The votes of a block. */
  datatype Votes = Votes(up: bool, down: bool, notUp: bool)

  function Pred(n: nat): nat {
    if n > 0 then n - 1 else 0
  }

  function Ticked(s: State): State {
    s.(burstTimer := Pred(s.burstTimer), rangeTimer := Pred(s.rangeTimer), rescanTimer := Pred(s.rescanTimer))
  }

  /** The runs of loud and of quiet blocks. */
  function BurstBlocks(s: State, m: Measurement): State {
    if m.loud then s.(quietBlocks := 0, loudBlocks := s.loudBlocks + 1)
    else if m.quiet then s.(loudBlocks := 0, quietBlocks := s.quietBlocks + 1)
    else s.(loudBlocks := 0, quietBlocks := 0)
  }

  function BurstVote(c: Config, s: State, m: Measurement): (State, Votes) {
    if !c.burst || s.burstTimer > 0 then (s, Votes(false, false, false))
    else
      var t := BurstBlocks(s, m);
      if t.loudBlocks >= c.loudRunlength then
        (if t.scan == Down then t.(scan := Idle, rescanTimer := 0) else t, Votes(false, true, true))
      else if t.quietBlocks < c.quietRunlength then (t, Votes(false, false, true))
      else (t, Votes(t.gain < t.limit, false, false))
  }

  function Lowered(s: State): State {
    if s.limit >= s.gain then s.(limit := s.gain - 1) else s
  }

  function Finished(c: Config, s: State): State {
    s.(scan := Idle, rescanTimer := c.rescanDelay)
  }

  function RangeVote(c: Config, s0: State, v: Votes, m: Measurement): (State, Votes) {
    if !c.range || s0.rangeTimer > 0 then (s0, v)
    else
      var s := if m.acceptable && s0.gain > s0.limit then s0.(limit := s0.gain) else s0;
      match s.scan
      case Up =>
        if !m.acceptable then (Lowered(s).(scan := Down), v.(down := true, notUp := true))
        else if s.gain >= c.max then (Finished(c, s), v)
        else if !v.notUp then (s, v.(up := true))
        else (s, v)
      case Down =>
        if m.acceptable then (Finished(c, s), v)
        else if s.gain <= c.min then (Finished(c, Lowered(s)), v)
        else (Lowered(s), v.(down := true, notUp := true))
      case Idle =>
        if m.fell && s.gain > c.min then (Lowered(s).(scan := Down), v.(down := true, notUp := true))
        else if s.rescanTimer == 0 && !v.notUp then
          if m.acceptable && s.gain < c.max then (s.(scan := Up), v.(up := true))
          else (s.(rescanTimer := c.rescanDelay), v)
        else (s, v)
  }

  function Clamp(c: Config, step: int): int {
    if step < c.min then c.min else if step > c.max then c.max else step
  }

  /** adaptive_set_gain and adaptive_gain_changed. The SDR sets the step it is asked for. */
  function WithGain(c: Config, s: State, step: int): State {
    var g := Clamp(c, step);
    if g == s.gain then s
    else s.(gain := g, rangeTimer := c.rangeDelay, burstTimer := c.burstDelay, loudBlocks := 0, quietBlocks := 0)
  }

  function Act(c: Config, s: State, v: Votes): State {
    if v.down then WithGain(c, s, s.gain - 1)
    else if v.up && !v.notUp then WithGain(c, s, s.gain + 1)
    else s
  }

  /** One block. */
  function Next(c: Config, s: State, m: Measurement): State {
    var (b, v) := BurstVote(c, Ticked(s), m);
    var (r, w) := RangeVote(c, b, v, m);
    Act(c, r, w)
  }

  /** adaptive_init, for the gain the SDR starts with. */
  function Initial(c: Config, gain: int): State
    requires ValidConfig(c)
  {
    var g := Clamp(c, gain);
    State(g, g, c.burstDelay, c.rangeDelay, 0, 0, 0, Up)
  }

  /** The state before block k of a run. */
  function After(c: Config, s: State, ms: seq<Measurement>): State {
    if ms == [] then s else Next(c, After(c, s, ms[..|ms| - 1]), ms[|ms| - 1])
  }

  // ---- The control update of the source -------------------------------------------------------

  class Controller {
    const c: Config
    var gain: int
    var limit: int
    var burstTimer: nat
    var rangeTimer: nat
    var rescanTimer: nat
    var loudBlocks: nat
    var quietBlocks: nat
    var scan: Scan

    ghost function View(): State
      reads this
    {
      State(gain, limit, burstTimer, rangeTimer, rescanTimer, loudBlocks, quietBlocks, scan)
    }

    constructor (c: Config, sdrGain: int)
      requires ValidConfig(c)
      ensures this.c == c && View() == Initial(c, sdrGain)
    {
      this.c := c;
      gain, rescanTimer, scan := sdrGain, 0, Up;
      limit, burstTimer, rangeTimer, loudBlocks, quietBlocks := 0, 0, 0, 0, 0;
      new;
      var changed := SetGain(sdrGain);
      GainChanged();
      limit := gain;
    }

    /** adaptive_set_gain: returns whether the gain changed. */
    method SetGain(step: int) returns (changed: bool)
      modifies `gain
      ensures gain == Clamp(c, step) && (changed <==> gain != old(gain))
    {
      var g := step;
      if g < c.min {
        g := c.min;
      } else if g > c.max {
        g := c.max;
      }
      changed := gain != g;
      gain := g;
    }

    /** adaptive_gain_changed */
    method GainChanged()
      modifies `rangeTimer, `burstTimer, `loudBlocks, `quietBlocks
      ensures rangeTimer == c.rangeDelay && burstTimer == c.burstDelay && loudBlocks == 0 && quietBlocks == 0
    {
      rangeTimer := c.rangeDelay;
      burstTimer := c.burstDelay;
      loudBlocks := 0;
      quietBlocks := 0;
    }

    method ChangeGain(step: int)
      modifies this
      ensures View() == WithGain(c, old(View()), step)
    {
      var changed := SetGain(step);
      if changed {
        GainChanged();
      }
    }

    /** The burst part of adaptive_control_update. */
    method VoteOnBursts(m: Measurement) returns (up: bool, down: bool, notUp: bool)
      modifies this
      ensures (View(), Votes(up, down, notUp)) == BurstVote(c, old(View()), m)
    {
      up, down, notUp := false, false, false;
      if c.burst && burstTimer == 0 {
        if m.loud {
          quietBlocks := 0;
          loudBlocks := loudBlocks + 1;
        } else if m.quiet {
          loudBlocks := 0;
          quietBlocks := quietBlocks + 1;
        } else {
          loudBlocks := 0;
          quietBlocks := 0;
        }
        if loudBlocks >= c.loudRunlength {
          down, notUp := true, true;
          if scan == Down {
            scan := Idle;
            rescanTimer := 0;
          }
        } else if quietBlocks < c.quietRunlength {
          notUp := true;
        } else if gain < limit {
          up := true;
        }
      }
    }

    method LowerLimit()
      modifies `limit
      ensures View() == Lowered(old(View()))
    {
      if limit >= gain {
        limit := gain - 1;
      }
    }

    /** The range part of adaptive_control_update. */
    method VoteOnRange(m: Measurement, u: bool, d: bool, nu: bool) returns (up: bool, down: bool, notUp: bool)
      modifies this
      ensures (View(), Votes(up, down, notUp)) == RangeVote(c, old(View()), Votes(u, d, nu), m)
    {
      up, down, notUp := u, d, nu;
      if c.range && rangeTimer == 0 {
        if m.acceptable && gain > limit {
          limit := gain;
        }
        match scan
        case Up =>
          if !m.acceptable {
            down, notUp := true, true;
            scan := Down;
            LowerLimit();
          } else if gain >= c.max {
            scan := Idle;
            rescanTimer := c.rescanDelay;
          } else if !notUp {
            up := true;
          }
        case Down =>
          if m.acceptable {
            scan := Idle;
            rescanTimer := c.rescanDelay;
          } else {
            LowerLimit();
            if gain <= c.min {
              scan := Idle;
              rescanTimer := c.rescanDelay;
            } else {
              down, notUp := true, true;
            }
          }
        case Idle =>
          if m.fell && gain > c.min {
            LowerLimit();
            scan := Down;
            down, notUp := true, true;
          } else if rescanTimer == 0 && !notUp {
            if m.acceptable && gain < c.max {
              up := true;
              scan := Up;
            } else {
              rescanTimer := c.rescanDelay;
            }
          }
      }
    }

    method TickTimers()
      modifies `burstTimer, `rangeTimer, `rescanTimer
      ensures View() == Ticked(old(View()))
    {
      if burstTimer > 0 {
        burstTimer := burstTimer - 1;
      }
      if rangeTimer > 0 {
        rangeTimer := rangeTimer - 1;
      }
      if rescanTimer > 0 {
        rescanTimer := rescanTimer - 1;
      }
    }

    /** adaptive_control_update */
    method ControlUpdate(m: Measurement)
      modifies this
      ensures View() == Next(c, old(View()), m)
    {
      hide BurstVote, RangeVote, WithGain;
      TickTimers();
      var up, down, notUp := VoteOnBursts(m);
      up, down, notUp := VoteOnRange(m, up, down, notUp);
      if down {
        ChangeGain(gain - 1);
      } else if up && !notUp {
        ChangeGain(gain + 1);
      }
    }
  }

  // ---- Every run ------------------------------------------------------------------------------

  /** Gain within its limits, range limit at most one step below them, and during a downward scan
      the limit is not above the gain. */
  predicate Inv(c: Config, s: State) {
    && c.min <= s.gain <= c.max
    && c.min - 1 <= s.limit <= c.max
    && (s.scan == Down ==> s.limit <= s.gain && c.range)
  }

  /** Burst votes leave gain, limit and timers alone, and stop a downward scan they interfere
      with. */
  lemma BurstVoteFacts(c: Config, s: State, m: Measurement)
    ensures var (b, v) := BurstVote(c, s, m);
      && b.gain == s.gain && b.limit == s.limit && b.burstTimer == s.burstTimer && b.rangeTimer == s.rangeTimer
      && (b.scan == s.scan || (s.scan == Down && b.scan == Idle))
      && (v.down ==> v.notUp && b.scan != Down && c.burst && s.burstTimer == 0)
      && (v.up ==> s.gain < s.limit && c.burst && s.burstTimer == 0)
  {
  }

  /** Range votes leave gain and timers of changes alone. A scan that goes on downward has its
      limit below the gain. */
  lemma RangeVoteFacts(c: Config, s: State, v: Votes, m: Measurement)
    requires ValidConfig(c) && Inv(c, s) && (v.down ==> v.notUp && s.scan != Down) && (v.up ==> s.gain < s.limit)
    ensures var (r, w) := RangeVote(c, s, v, m);
      && r.gain == s.gain && r.burstTimer == s.burstTimer && r.rangeTimer == s.rangeTimer
      && c.min - 1 <= r.limit <= c.max
      && (w.down ==> w.notUp && (v.down || (c.range && s.rangeTimer == 0)))
      && (w.up ==> v.up || (c.range && s.rangeTimer == 0 && m.acceptable && r.scan == Up))
      && (r.scan == Down ==> c.range && r.limit <= r.gain && (w.down ==> r.limit < r.gain))
      && (r.scan == Down && !w.down ==> s.rangeTimer > 0 && s.scan == Down && r == s)
      && (r.scan == Down && w.down ==> s.rangeTimer == 0)
      && (s.scan == Down && s.rangeTimer == 0 && c.range ==> r.scan == Idle || (w.down && s.gain > c.min))
      && (r.scan == Down && s.scan != Up ==> (s.rangeTimer == 0 ==> s.gain > c.min))
  {
  }

  /** Every block keeps the invariant and moves the gain by at most one step. */
  lemma NextKeepsInv(c: Config, s: State, m: Measurement)
    requires ValidConfig(c) && Inv(c, s)
    ensures var t := Next(c, s, m); Inv(c, t) && -1 <= t.gain - s.gain <= 1
  {
    VoteFacts(c, s, m);
    hide BurstVote, RangeVote;
  }

  /** Both votes of a block. */
  lemma VoteFacts(c: Config, s: State, m: Measurement)
    requires ValidConfig(c) && Inv(c, s)
    ensures var (b, v) := BurstVote(c, Ticked(s), m);
      var (r, w) := RangeVote(c, b, v, m);
      && r.gain == s.gain && r.burstTimer == Pred(s.burstTimer) && r.rangeTimer == Pred(s.rangeTimer)
      && c.min - 1 <= r.limit <= c.max
      && (w.down ==> w.notUp && ((c.burst && s.burstTimer <= 1) || (c.range && s.rangeTimer <= 1)))
      && (w.up && !w.notUp ==>
           || (s.gain < s.limit && c.burst && s.burstTimer <= 1)
           || (c.range && s.rangeTimer <= 1 && m.acceptable && r.scan == Up))
      && (r.scan == Down ==> c.range && r.limit <= r.gain && (w.down ==> r.limit < r.gain))
      && (s.scan == Down && r.scan == Down ==>
           || (!w.down && !(w.up && !w.notUp) && s.rangeTimer > 1)
           || (w.down && s.rangeTimer <= 1 && s.gain > c.min))
      && (s.scan == Down && s.rangeTimer <= 1 ==> r.scan == Idle || (w.down && s.gain > c.min))
  {
    BurstVoteFacts(c, Ticked(s), m);
    var (b, v) := BurstVote(c, Ticked(s), m);
    RangeVoteFacts(c, b, v, m);
    hide BurstVote, RangeVote;
  }

  lemma {:induction false} RunKeepsInv(c: Config, gain: int, ms: seq<Measurement>)
    requires ValidConfig(c)
    ensures Inv(c, After(c, Initial(c, gain), ms))
    decreases |ms|
  {
    hide Next, Inv;
    if ms == [] {
      InitialInv(c, gain);
    } else {
      RunKeepsInv(c, gain, ms[..|ms| - 1]);
      NextKeepsInv(c, After(c, Initial(c, gain), ms[..|ms| - 1]), ms[|ms| - 1]);
    }
  }

  lemma InitialInv(c: Config, gain: int)
    requires ValidConfig(c)
    ensures Inv(c, Initial(c, gain))
  {
  }

  /** Only range control raises the gain above the limit, and only to probe: after a decision on
      an acceptable range. Burst control alone never does. */
  lemma RaisedOnlyToLimitOrToProbe(c: Config, s: State, m: Measurement)
    requires ValidConfig(c) && Inv(c, s)
    ensures var t := Next(c, s, m);
      t.gain > s.gain ==> t.gain <= s.limit || (c.range && s.rangeTimer <= 1 && m.acceptable && t.scan == Up)
  {
    VoteFacts(c, s, m);
    hide BurstVote, RangeVote;
  }

  // ---- Change delays ----------------------------------------------------------------------------

  /** At least this many blocks lie between two changes of the gain. */
  function SmallestDelay(c: Config): nat {
    var b, r := if c.burstDelay > 0 then c.burstDelay else 1, if c.rangeDelay > 0 then c.rangeDelay else 1;
    if !c.range then b else if !c.burst then r else if b < r then b else r
  }

  /** At most k blocks have passed since the gain changed. */
  predicate Since(c: Config, s: State, k: nat) {
    s.burstTimer >= c.burstDelay - k && s.rangeTimer >= c.rangeDelay - k
  }

  lemma NoChangeYet(c: Config, s: State, m: Measurement, k: nat)
    requires ValidConfig(c) && Inv(c, s) && Since(c, s, k) && k + 1 < SmallestDelay(c)
    ensures Next(c, s, m).gain == s.gain && Since(c, Next(c, s, m), k + 1)
  {
    VoteFacts(c, s, m);
    hide BurstVote, RangeVote;
  }

  lemma ChangeRestartsDelays(c: Config, s: State, m: Measurement)
    requires ValidConfig(c) && Inv(c, s) && Next(c, s, m).gain != s.gain
    ensures Since(c, Next(c, s, m), 0)
  {
    VoteFacts(c, s, m);
    hide BurstVote, RangeVote;
  }

  /** The gain right after a change stays for the smallest enabled delay. */
  lemma {:induction false} GainHolds(c: Config, s: State, ms: seq<Measurement>)
    requires ValidConfig(c) && Inv(c, s) && Since(c, s, 0) && |ms| < SmallestDelay(c)
    ensures After(c, s, ms).gain == s.gain && Inv(c, After(c, s, ms)) && Since(c, After(c, s, ms), |ms|)
    decreases |ms|
  {
    hide Next, Inv, Since, SmallestDelay;
    if ms != [] {
      var before := After(c, s, ms[..|ms| - 1]);
      GainHolds(c, s, ms[..|ms| - 1]);
      NoChangeYet(c, before, ms[|ms| - 1], |ms| - 1);
      NextKeepsInv(c, before, ms[|ms| - 1]);
    }
  }

  lemma {:induction false} AfterAppend(c: Config, s: State, x: seq<Measurement>, y: seq<Measurement>)
    ensures After(c, s, x + y) == After(c, After(c, s, x), y)
    decreases |y|
  {
    hide Next;
    if y == [] {
      assert x + y == x;
    } else {
      assert (x + y)[..|x + y| - 1] == x + y[..|y| - 1];
      AfterAppend(c, s, x, y[..|y| - 1]);
    }
  }

  predicate ChangesAt(c: Config, s: State, ms: seq<Measurement>, k: nat)
    requires k < |ms|
  {
    After(c, s, ms[..k + 1]).gain != After(c, s, ms[..k]).gain
  }

  /** In every run, two blocks that change the gain are at least the smallest enabled change delay
      apart. */
  lemma ChangesAreApart(c: Config, gain: int, ms: seq<Measurement>, i: nat, j: nat)
    requires ValidConfig(c) && i < j < |ms|
    requires ChangesAt(c, Initial(c, gain), ms, i) && ChangesAt(c, Initial(c, gain), ms, j)
    ensures j - i >= SmallestDelay(c)
  {
    hide Next, Inv, Since, SmallestDelay;
    var s := Initial(c, gain);
    var t := After(c, s, ms[..i + 1]);
    assert ms[..i + 1][..i] == ms[..i];
    RunKeepsInv(c, gain, ms[..i]);
    ChangeRestartsDelays(c, After(c, s, ms[..i]), ms[i]);
    RunKeepsInv(c, gain, ms[..i + 1]);
    if j - i < SmallestDelay(c) {
      assert ms[..j] == ms[..i + 1] + ms[i + 1..j] && ms[..j + 1] == ms[..i + 1] + ms[i + 1..j + 1];
      AfterAppend(c, s, ms[..i + 1], ms[i + 1..j]);
      AfterAppend(c, s, ms[..i + 1], ms[i + 1..j + 1]);
      GainHolds(c, t, ms[i + 1..j]);
      GainHolds(c, t, ms[i + 1..j + 1]);
    }
  }

  lemma DisabledNeverChanges(c: Config, s: State, m: Measurement)
    requires !c.burst && !c.range
    ensures Next(c, s, m).gain == s.gain && Next(c, s, m).limit == s.limit
  {
  }

  /** With both controls disabled, no run changes the gain. */
  lemma {:induction false} DisabledRunNeverChanges(c: Config, s: State, ms: seq<Measurement>)
    requires !c.burst && !c.range
    ensures After(c, s, ms).gain == s.gain && After(c, s, ms).limit == s.limit
    decreases |ms|
  {
    hide Next;
    if ms != [] {
      DisabledRunNeverChanges(c, s, ms[..|ms| - 1]);
      DisabledNeverChanges(c, After(c, s, ms[..|ms| - 1]), ms[|ms| - 1]);
    }
  }

  // ---- Downward scans ---------------------------------------------------------------------------

  /** Each range decision in a downward scan ends it or lowers the gain by one step. */
  lemma DecisionEndsOrLowers(c: Config, s: State, m: Measurement)
    requires ValidConfig(c) && Inv(c, s) && s.scan == Down && s.rangeTimer <= 1
    ensures var t := Next(c, s, m); t.scan == Idle || t.gain == s.gain - 1
  {
    VoteFacts(c, s, m);
    hide BurstVote, RangeVote;
  }

  /** The blocks a downward scan can still last. */
  function ScanMeasure(c: Config, s: State): int {
    (s.gain - c.min) * (c.rangeDelay + 1) + s.rangeTimer
  }

  lemma ScanProgress(c: Config, s: State, m: Measurement)
    requires ValidConfig(c) && Inv(c, s) && s.scan == Down && Next(c, s, m).scan == Down
    ensures ScanMeasure(c, Next(c, s, m)) < ScanMeasure(c, s)
  {
    ScanKeepsOrLowers(c, s, m);
    var t := Next(c, s, m);
    hide Next;
    if t.gain == s.gain - 1 {
      assert (s.gain - c.min) * (c.rangeDelay + 1) == (t.gain - c.min) * (c.rangeDelay + 1) + (c.rangeDelay + 1);
    }
  }

  lemma ScanKeepsOrLowers(c: Config, s: State, m: Measurement)
    requires ValidConfig(c) && Inv(c, s) && s.scan == Down && Next(c, s, m).scan == Down
    ensures var t := Next(c, s, m);
      || (t.gain == s.gain && s.rangeTimer > 0 && t.rangeTimer == s.rangeTimer - 1)
      || (t.gain == s.gain - 1 && t.rangeTimer == c.rangeDelay)
  {
    VoteFacts(c, s, m);
    hide BurstVote, RangeVote;
  }

  predicate StaysDown(c: Config, s: State, ms: seq<Measurement>) {
    forall k :: 0 <= k <= |ms| ==> After(c, s, ms[..k]).scan == Down
  }

  /** Every downward scan ends: it lasts at most ScanMeasure blocks, whatever is measured. */
  lemma {:induction false} ScansEnd(c: Config, s: State, ms: seq<Measurement>)
    requires ValidConfig(c) && Inv(c, s) && StaysDown(c, s, ms)
    ensures Inv(c, After(c, s, ms)) && ScanMeasure(c, After(c, s, ms)) + |ms| <= ScanMeasure(c, s)
    ensures |ms| <= ScanMeasure(c, s)
    decreases |ms|
  {
    hide Next, Inv, ScanMeasure;
    if ms != [] {
      var init := ms[..|ms| - 1];
      assert forall k :: 0 <= k <= |init| ==> init[..k] == ms[..k];
      ScansEnd(c, s, init);
      var before := After(c, s, init);
      assert ms[..|ms|] == ms && init[..|init|] == init;
      ScanProgress(c, before, ms[|ms| - 1]);
      NextKeepsInv(c, before, ms[|ms| - 1]);
    }
    MeasureIsNatural(c, After(c, s, ms));
  }

  lemma MeasureIsNatural(c: Config, s: State)
    requires ValidConfig(c) && Inv(c, s)
    ensures ScanMeasure(c, s) >= 0
  {
    assert (s.gain - c.min) * (c.rangeDelay + 1) >= 0;
  }
}
