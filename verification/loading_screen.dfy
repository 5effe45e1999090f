/**
 * The loading overlay of the OneConnectX landing page.
 *
 * An interval timer fires every `ProgressSpeed` milliseconds and replaces the
 * displayed percentage by the result of a tick; the tick depends on the
 * previous percentage, a random increment and the time elapsed since mount.
 * The tick that completes the bar stops the interval and schedules the
 * overlay to disappear `CompleteDelay` milliseconds later.
 *
 * The browser's randomness (`Math.random`) and clock (`Date.now`) are
 * parameters: a draw `random` in [0, 1) and the elapsed time `elapsed`.
 */
module LoadingScreen {

  // The loading settings of the component.
  const MinLoadingTime: int := 8000
  const ProgressSpeed: int := 400
  const IncrementSize: int := 3
  const CompleteDelay: int := 3000
  // `Math.floor(Math.random() * RandomSpan)` is added to `IncrementSize`.
  const RandomSpan: int := 5
  // A tick that would reach this percentage before the minimum time only adds 1.
  const SlowDownAt: int := 95

  /** The largest increment one tick can draw. */
  const MaxIncrement: int := IncrementSize + RandomSpan - 1

  /** The increment of one tick, from a draw of `Math.random`. */
  function Increment(random: real): (inc: int)
    requires 0.0 <= random < 1.0
    ensures IncrementSize <= inc <= MaxIncrement
    ensures inc == MaxIncrement <==> 0.8 <= random
  {
    IncrementSize + (random * RandomSpan as real).Floor
  }

  /** Every increment from 3 to 7 is drawn by some value of `Math.random`. */
  lemma IncrementRange(k: int)
    requires 0 <= k < RandomSpan
    ensures Increment(k as real / RandomSpan as real) == IncrementSize + k
  {
  }

  /** What one tick returns: the new percentage and whether it stopped the interval. */
  datatype TickResult = TickResult(progress: int, done: bool)

  /**
   * One run of the interval callback, given the previous percentage, the
   * increment and the time since mount.
   */
  function Step(prev: int, inc: int, elapsed: int): (t: TickResult)
    // the tick completes exactly when the capped sum reaches 100 and the minimum time has passed
    ensures t.done <==> prev + inc >= 100 && elapsed >= MinLoadingTime
    ensures t.done ==> t.progress == 100
    // before the minimum time, a sum of at least 95 advances by exactly 1 whatever the increment
    ensures elapsed < MinLoadingTime && prev + inc >= SlowDownAt ==> t.progress == prev + 1
    // progress never goes back
    ensures prev <= 100 && 0 <= inc ==> prev <= t.progress
    // once the minimum time has passed, progress stays capped and is 100 only on completion
    ensures elapsed >= MinLoadingTime && prev <= 100 ==> t.progress <= 100 && (t.progress == 100 <==> t.done)
    // otherwise the capped sum is returned
    ensures !t.done && !(elapsed < MinLoadingTime && prev + inc >= SlowDownAt) ==> t.progress == prev + inc
  {
    var newProgress := if prev + inc < 100 then prev + inc else 100;
    if newProgress >= 100 && elapsed >= MinLoadingTime then
      TickResult(100, true)
    else if newProgress >= SlowDownAt && elapsed < MinLoadingTime then
      TickResult(prev + 1, false)
    else
      TickResult(newProgress, false)
  }

  /** The slow-down branch is not capped: at 100 before the minimum time it yields 101. */
  lemma SlowDownUnclamped(inc: int, elapsed: int)
    requires IncrementSize <= inc <= MaxIncrement && elapsed < MinLoadingTime
    ensures Step(100, inc, elapsed) == TickResult(101, false)
  {
  }

  /**
   * The whole state of the component: the rendered state (`progress`,
   * `isLoading`), whether the interval is still active, the time at which the
   * hide timeout fires (meaningful once the interval is stopped), and two
   * bookkeeping values for the clock: the number of ticks so far and the
   * elapsed time of the last one.
   */
  datatype Timer = Timer(progress: int, isLoading: bool, ticking: bool, hideAt: int, ticks: nat, lastTick: int)

  /** The state at mount. */
  const Initial: Timer := Timer(0, true, true, 0, 0, 0)

  /** The state after one tick: the interval is cleared and the hide scheduled on completion. */
  function Advance(s: Timer, inc: int, elapsed: int): Timer
  {
    var t := Step(s.progress, inc, elapsed);
    Timer(t.progress, s.isLoading, s.ticking && !t.done,
          if t.done then elapsed + CompleteDelay else s.hideAt,
          s.ticks + 1, elapsed)
  }

  /** The state after the hide timeout has fired. */
  function Hide(s: Timer): Timer
  {
    s.(isLoading := false)
  }

  /**
   * An upper bound on the percentage after `k` ticks that all ran before the
   * minimum time: a normal tick adds at most 7 and stays below 95, a
   * slow-down tick adds 1.
   */
  function EarlyBound(k: nat): (b: int)
    ensures b <= MaxIncrement * k
    ensures k <= 18 ==> b <= 98
  {
    var late := if 94 < k + 80 then k + 80 else 94;
    if MaxIncrement * k < late then MaxIncrement * k else late
  }

  /**
   * The invariant of every reachable state: the percentage lies in 0..100; it
   * is 100 exactly when the interval has stopped; while the interval runs
   * and no tick has reached the minimum time, it is within `EarlyBound`; the
   * hide timeout is never scheduled before `MinLoadingTime + CompleteDelay`;
   * and the overlay is only hidden after the interval has stopped.
   */
  ghost predicate Inv(s: Timer)
  {
    && 0 <= s.progress <= 100
    && (s.ticking ==> s.isLoading && s.progress < 100)
    && (s.ticking && s.lastTick < MinLoadingTime ==> s.progress <= EarlyBound(s.ticks))
    && (!s.ticking ==> s.progress == 100 && s.hideAt >= MinLoadingTime + CompleteDelay)
    && (!s.isLoading ==> !s.ticking)
  }

  /**
   * What the browser's interval guarantees for the next tick: the clock does
   * not go back and the k-th tick runs at least `ProgressSpeed * k`
   * milliseconds after mount.
   */
  ghost predicate OnTime(s: Timer, elapsed: int)
  {
    elapsed >= s.lastTick && elapsed >= ProgressSpeed * (s.ticks + 1)
  }

  lemma InitialInv()
    ensures Inv(Initial) && Initial.progress == 0 && Initial.isLoading && Initial.ticking
  {
  }

  /** One tick keeps the invariant. */
  lemma AdvanceKeepsInv(s: Timer, inc: int, elapsed: int)
    requires Inv(s) && s.ticking && OnTime(s, elapsed)
    requires IncrementSize <= inc <= MaxIncrement
    ensures Inv(Advance(s, inc, elapsed))
  {
    // OnTime lets at most 19 ticks run before the minimum time, and
    // EarlyBound(18) + 1 <= 99 keeps the slow-down branch below 100
  }

  /** One event of the interval: a draw of `Math.random` and the time since mount. */
  datatype TickEvent = TickEvent(random: real, elapsed: int)

  ghost predicate ValidDraws(evs: seq<TickEvent>)
  {
    forall i :: 0 <= i < |evs| ==> 0.0 <= evs[i].random < 1.0
  }

  /**
   * A sequence of ticks the browser can deliver after state `s`: each draw in
   * [0, 1), the clock never going back, and the i-th further tick at least
   * `ProgressSpeed * (s.ticks + i + 1)` milliseconds after mount.
   */
  ghost predicate WellTimed(s: Timer, evs: seq<TickEvent>)
  {
    && ValidDraws(evs)
    && (forall i :: 0 <= i < |evs| ==> evs[i].elapsed >= ProgressSpeed * (s.ticks + i + 1))
    && (forall i :: 0 <= i < |evs| ==> evs[i].elapsed >= s.lastTick)
    && (forall i, j :: 0 <= i < j < |evs| ==> evs[i].elapsed <= evs[j].elapsed)
  }

  /** The state after the interval has delivered `evs`; no tick runs once it is cleared. */
  function RunTicks(s: Timer, evs: seq<TickEvent>): (s': Timer)
    requires ValidDraws(evs)
    decreases |evs|
  {
    if evs == [] || !s.ticking then s
    else RunTicks(Advance(s, Increment(evs[0].random), evs[0].elapsed), evs[1..])
  }

  lemma WellTimedTail(s: Timer, evs: seq<TickEvent>, inc: int)
    requires WellTimed(s, evs) && evs != []
    ensures OnTime(s, evs[0].elapsed)
    ensures WellTimed(Advance(s, inc, evs[0].elapsed), evs[1..])
  {
    var s' := Advance(s, inc, evs[0].elapsed);
    var rest := evs[1..];
    forall i | 0 <= i < |rest|
      ensures rest[i].elapsed >= ProgressSpeed * (s'.ticks + i + 1)
      ensures rest[i].elapsed >= s'.lastTick
    {
      assert rest[i] == evs[i + 1];
    }
    forall i, j | 0 <= i < j < |rest|
      ensures rest[i].elapsed <= rest[j].elapsed
    {
      assert rest[i] == evs[i + 1] && rest[j] == evs[j + 1];
    }
  }

  /** Every run the browser can deliver keeps the invariant. */
  lemma {:induction false} RunKeepsInv(s: Timer, evs: seq<TickEvent>)
    requires Inv(s) && WellTimed(s, evs)
    ensures Inv(RunTicks(s, evs))
    decreases |evs|
  {
    if evs != [] && s.ticking {
      var inc := Increment(evs[0].random);
      WellTimedTail(s, evs, inc);
      AdvanceKeepsInv(s, inc, evs[0].elapsed);
      RunKeepsInv(Advance(s, inc, evs[0].elapsed), evs[1..]);
    }
  }

  /** Progress never decreases over a run, and the overlay stays as it was. */
  lemma {:induction false} RunMonotone(s: Timer, evs: seq<TickEvent>)
    requires Inv(s) && WellTimed(s, evs)
    ensures s.progress <= RunTicks(s, evs).progress
    ensures RunTicks(s, evs).isLoading == s.isLoading
    ensures s.ticks <= RunTicks(s, evs).ticks
    decreases |evs|
  {
    if evs != [] && s.ticking {
      var inc := Increment(evs[0].random);
      WellTimedTail(s, evs, inc);
      AdvanceKeepsInv(s, inc, evs[0].elapsed);
      RunMonotone(Advance(s, inc, evs[0].elapsed), evs[1..]);
    }
  }

  /**
   * From mount, whatever the draws: the percentage stays within 0..100, it is
   * 100 exactly when the interval has stopped, and a stopped interval has
   * scheduled the hide no earlier than 11000 ms after mount.
   */
  lemma RunFromMount(evs: seq<TickEvent>)
    requires WellTimed(Initial, evs)
    ensures var s := RunTicks(Initial, evs);
      && 0 <= s.progress <= 100
      && (s.progress == 100 <==> !s.ticking)
      && (!s.ticking ==> s.hideAt >= MinLoadingTime + CompleteDelay)
      && s.isLoading
  {
    RunKeepsInv(Initial, evs);
    RunMonotone(Initial, evs);
  }

  /**
   * Loading always finishes: once the minimum time has passed every tick that
   * does not complete adds at least 3, so enough ticks stop the interval.
   */
  lemma {:induction false} CompletesAfterMinimum(s: Timer, evs: seq<TickEvent>)
    requires ValidDraws(evs)
    requires forall i :: 0 <= i < |evs| ==> evs[i].elapsed >= MinLoadingTime
    requires s.ticking ==> 0 <= s.progress < 100
    requires IncrementSize * |evs| >= 100 - s.progress
    ensures !RunTicks(s, evs).ticking
    decreases |evs|
  {
    if s.ticking && evs != [] {
      var s' := Advance(s, Increment(evs[0].random), evs[0].elapsed);
      if s'.ticking {
        assert ValidDraws(evs[1..]) by {
          forall i | 0 <= i < |evs| - 1 ensures 0.0 <= evs[1..][i].random < 1.0 {
            assert evs[1..][i] == evs[i + 1];
          }
        }
        assert forall i :: 0 <= i < |evs| - 1 ==> evs[1..][i] == evs[i + 1];
        CompletesAfterMinimum(s', evs[1..]);
      }
    }
  }

  /** `n` firings that all draw 0.0, the first after `k` earlier ones, each exactly on its 400 ms slot. */
  function SlowDraws(k: nat, n: nat): (evs: seq<TickEvent>)
    ensures |evs| == n
  {
    seq(n, i => TickEvent(0.0, ProgressSpeed * (k + i + 1)))
  }

  lemma {:induction false} SlowDrawsRun(k: nat, n: nat)
    requires k + n <= 20
    ensures ValidDraws(SlowDraws(k, n))
    ensures RunTicks(Timer(IncrementSize * k, true, true, 0, k, ProgressSpeed * k), SlowDraws(k, n))
         == Timer(IncrementSize * (k + n), true, true, 0, k + n, ProgressSpeed * (k + n))
    decreases n
  {
    var evs := SlowDraws(k, n);
    if n > 0 {
      assert evs[1..] == SlowDraws(k + 1, n - 1);
      assert Increment(evs[0].random) == IncrementSize;
      SlowDrawsRun(k + 1, n - 1);
    }
  }

  /**
   * The bar need not read 100 % at the firing at 8000 ms: twenty on-time
   * firings that all draw 0.0 leave it at 60 % with the interval running.
   */
  lemma SlowDrawsAtMinimum()
    ensures WellTimed(Initial, SlowDraws(0, 20))
    ensures SlowDraws(0, 20)[19].elapsed == MinLoadingTime
    ensures RunTicks(Initial, SlowDraws(0, 20)).progress == 60
    ensures RunTicks(Initial, SlowDraws(0, 20)).ticking
  {
    var evs := SlowDraws(0, 20);
    SlowDrawsRun(0, 20);
    assert Initial == Timer(IncrementSize * 0, true, true, 0, 0, ProgressSpeed * 0);
    forall i, j | 0 <= i < j < |evs| ensures evs[i].elapsed <= evs[j].elapsed {
      assert evs[i].elapsed == ProgressSpeed * (i + 1) && evs[j].elapsed == ProgressSpeed * (j + 1);
    }
  }

  /** The horizontal offset, in percent, of the percentage label above the bar. */
  function LabelOffset(progress: int): (x: int)
    ensures 0 <= x <= 95
    ensures 5 <= progress <= 100 ==> x == progress - 5
    ensures progress <= 5 ==> x == 0
  {
    var shifted := if progress - 5 < 95 then progress - 5 else 95;
    if 0 < shifted then shifted else 0
  }

  /** The four status lines under the bar. */
  datatype Status = Initializing | LoadingComponents | BuildingInnovation | AlmostReady

  function Message(s: Status): string
  {
    match s
    case Initializing => "Initializing..."
    case LoadingComponents => "Loading Components..."
    case BuildingInnovation => "Building Innovation..."
    case AlmostReady => "Almost Ready!"
  }

  /** The status lines whose guards hold, each guard read on its own as the render does. */
  function Shown(progress: int): set<string>
  {
    (if progress < 30 then {"Initializing..."} else {})
    + (if progress >= 30 && progress < 60 then {"Loading Components..."} else {})
    + (if progress >= 60 && progress < 90 then {"Building Innovation..."} else {})
    + (if progress >= 90 then {"Almost Ready!"} else {})
  }

  /** The status for a percentage: the guards show exactly its line. */
  function StatusFor(progress: int): (st: Status)
    ensures Shown(progress) == {Message(st)}
  {
    if progress < 30 then Initializing
    else if progress < 60 then LoadingComponents
    else if progress < 90 then BuildingInnovation
    else AlmostReady
  }

  function Rank(s: Status): nat
  {
    match s
    case Initializing => 0
    case LoadingComponents => 1
    case BuildingInnovation => 2
    case AlmostReady => 3
  }

  /** As the percentage grows the status line only moves forward. */
  lemma StatusMonotone(p: int, q: int)
    requires p <= q
    ensures Rank(StatusFor(p)) <= Rank(StatusFor(q))
  {
  }

  /**
   * The component as the browser runs it: `progress` and `isLoading` are its
   * React state, `intervalActive` says whether the interval still fires and
   * `hideAt` when the completion timeout fires.
   */
  class Overlay {
    var progress: int
    var isLoading: bool
    var intervalActive: bool
    var hideAt: int
    ghost var ticks: nat
    ghost var lastTick: int

    ghost function State(): Timer
      reads this
    {
      Timer(progress, isLoading, intervalActive, hideAt, ticks, lastTick)
    }

    ghost predicate Valid()
      reads this
    {
      Inv(State())
    }

    /** Mount: 0 %, loading, interval started. */
    constructor ()
      ensures Valid() && State() == Initial
    {
      progress, isLoading, intervalActive, hideAt := 0, true, true, 0;
      ticks, lastTick := 0, 0;
    }

    /** One firing of the interval with the draw `random` at `elapsed` ms after mount. */
    method Tick(random: real, elapsed: int)
      requires Valid() && intervalActive && OnTime(State(), elapsed)
      requires 0.0 <= random < 1.0
      modifies this
      ensures Valid()
      ensures State() == Advance(old(State()), Increment(random), elapsed)
      ensures old(progress) <= progress <= 100
      ensures !intervalActive ==> progress == 100 && hideAt >= MinLoadingTime + CompleteDelay
    {
      var increment := IncrementSize + (random * RandomSpan as real).Floor;
      var newProgress := if progress + increment < 100 then progress + increment else 100;
      AdvanceKeepsInv(State(), increment, elapsed);
      if newProgress >= 100 && elapsed >= MinLoadingTime {
        intervalActive := false;
        hideAt := elapsed + CompleteDelay;
        progress := 100;
      } else if newProgress >= SlowDownAt && elapsed < MinLoadingTime {
        progress := progress + 1;
      } else {
        progress := newProgress;
      }
      ticks, lastTick := ticks + 1, elapsed;
    }

    /** The completion timeout fires at `now` ms after mount and hides the overlay. */
    method Timeout(now: int)
      requires Valid() && !intervalActive && now >= hideAt
      modifies this`isLoading
      ensures Valid() && State() == Hide(old(State()))
      ensures now >= MinLoadingTime + CompleteDelay
    {
      isLoading := false;
    }
  }
}
