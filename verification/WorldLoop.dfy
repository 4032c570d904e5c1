/** The world's update loop and how it compensates its sleep for the work done. */
module WorldLoop {
  import opened Timer

  const WORLD_SLEEP: int := 50

  /** What the environment adds in one iteration: how long the update takes, and how much longer than
      asked a sleep lasts. */
  datatype Beat = Beat(work: int, oversleep: int)

  /** At the top of an iteration: the true time, the true time prev_time was read, prev_sleep_time. */
  datatype LoopState = LoopState(now: int, prev: int, sleep: int) {
    /** The time since the previous reading that was not asked for as sleep. */
    function Load(): int { now - prev - sleep }

    /** What the loop computes from the wrapped clock. */
    function Diff(): int { GetTimeDiff(Wrap(prev), Wrap(now)) }

    /** By how much the load as measured is over the 50 ms of an iteration; the program forgets it. */
    function Excess(): int { if Diff() - sleep > WORLD_SLEEP then Diff() - sleep - WORLD_SLEEP else 0 }

    predicate Sane() { now - prev < TWO31 && sleep >= 0 && Load() >= 0 }
  }

  function Iterate(s: LoopState, b: Beat): LoopState {
    if s.Diff() <= WORLD_SLEEP + s.sleep then
      var sleep := WORLD_SLEEP + s.sleep - s.Diff();
      LoopState(s.now + b.work + sleep + b.oversleep, s.now, sleep)
    else LoopState(s.now + b.work, s.now, 0)
  }

  function Run(s: LoopState, beats: seq<Beat>): LoopState
    decreases |beats|
  {
    if beats == [] then s else Run(Iterate(s, beats[0]), beats[1..])
  }

  lemma {:induction false} RunSnoc(s: LoopState, beats: seq<Beat>, b: Beat)
    ensures Run(s, beats + [b]) == Iterate(Run(s, beats), b)
    decreases |beats|
  {
    if beats == [] {
      assert ([] + [b])[1..] == [];
    } else {
      assert (beats + [b])[1..] == beats[1..] + [b];
      RunSnoc(Iterate(s, beats[0]), beats[1..], b);
    }
  }

  /** WorldUpdateLoop for as many iterations as there are beats; starts are the true times of its ticks. */
  method WorldUpdateLoop(loaded: int, started: int, beats: seq<Beat>) returns (starts: seq<int>, sleeps: seq<int>)
    ensures |starts| == |sleeps| == |beats|
    ensures forall i :: 0 <= i < |beats| ==> starts[i] == Run(LoopState(started, loaded, 0), beats[..i]).now
    ensures forall i :: 0 <= i < |beats| ==> sleeps[i] == Run(LoopState(started, loaded, 0), beats[..i + 1]).sleep
  {
    starts, sleeps := [], [];
    var clock := started;
    var currTime, prevSleepTime := 0, 0;
    var prevTime := Wrap(loaded);
    ghost var first := LoopState(started, loaded, 0);
    for i := 0 to |beats|
      invariant |starts| == |sleeps| == i
      invariant Run(first, beats[..i]).now == clock && Run(first, beats[..i]).sleep == prevSleepTime
      invariant prevTime == Wrap(Run(first, beats[..i]).prev)
      invariant forall k :: 0 <= k < i ==> starts[k] == Run(first, beats[..k]).now
      invariant forall k :: 0 <= k < i ==> sleeps[k] == Run(first, beats[..k + 1]).sleep
    {
      assert beats[..i + 1] == beats[..i] + [beats[i]];
      RunSnoc(first, beats[..i], beats[i]);
      currTime := Wrap(clock);
      starts := starts + [clock];
      var diff := GetTimeDiff(prevTime, currTime);
      clock := clock + beats[i].work;
      prevTime := currTime;
      if diff <= WORLD_SLEEP + prevSleepTime {
        prevSleepTime := WORLD_SLEEP + prevSleepTime - diff;
        clock := clock + prevSleepTime + beats[i].oversleep;
      } else {
        prevSleepTime := 0;
      }
      sleeps := sleeps + [prevSleepTime];
    }
  }

  // ---- how far the ticks drift from a 50 ms grid ----

  /** Sleeps never return early, and no iteration lasts anywhere near 2^31 ms. */
  ghost predicate Plausible(beats: seq<Beat>) {
    forall i :: 0 <= i < |beats| ==>
      0 <= beats[i].work && 0 <= beats[i].oversleep && beats[i].work + beats[i].oversleep < TWO31 - 51
  }

  /** The excess the loop forgets over the run. */
  function Lost(s: LoopState, beats: seq<Beat>): int
    decreases |beats|
  {
    if beats == [] then 0 else s.Excess() + Lost(Iterate(s, beats[0]), beats[1..])
  }

  lemma IterationBalance(s: LoopState, b: Beat)
    requires s.Sane() && Plausible([b])
    ensures var s' := Iterate(s, b);
      && s'.Sane() && s'.prev == s.now
      && s'.sleep == WORLD_SLEEP - s.Load() + (Epoch(s.now) - Epoch(s.prev)) + s.Excess()
      && s'.now == s.now + s'.Load() + s'.sleep
      && 0 <= s'.sleep <= WORLD_SLEEP + (Epoch(s.now) - Epoch(s.prev))
      && s'.Load() <= b.work + b.oversleep
      && Epoch(s.prev) <= Epoch(s.now)
      && s.Excess() >= 0
      && (s.Load() <= WORLD_SLEEP ==> s.Excess() == 0)
  {
    assert [b][0] == b;
    TimeDiffOfWrappedClock(s.prev, s.now - s.prev);
  }

  /** For any work and any oversleep the start of tick n is known exactly: the grid, plus the last load
      less the first, plus what the loop forgot, plus one for each wrap of the clock. The drift
      telescopes; it does not accumulate. */
  lemma {:induction false} DriftIsExact(s: LoopState, beats: seq<Beat>)
    requires s.Sane() && Plausible(beats)
    ensures var e := Run(s, beats);
      && e.Sane() && Epoch(e.prev) >= Epoch(s.prev) && Lost(s, beats) >= 0
      && e.now == s.now + WORLD_SLEEP * |beats| + e.Load() - s.Load()
                  + (Epoch(e.prev) - Epoch(s.prev)) + Lost(s, beats)
    decreases |beats|
  {
    if beats != [] {
      var s' := Iterate(s, beats[0]);
      assert Plausible([beats[0]]);
      IterationBalance(s, beats[0]);
      DriftIsExact(s', beats[1..]);
    }
  }

  /** In every run the load of a tick is its update's time, and its oversleep if it slept: which it did
      exactly if the load measured at its start was at most 50. */
  lemma LoadIsTheBeats(s: LoopState, beats: seq<Beat>, b: Beat)
    requires s.Sane() && Plausible(beats + [b])
    ensures var e, e' := Run(s, beats), Run(s, beats + [b]);
      var measured := e.Load() - (Epoch(e.now) - Epoch(e.prev));
      && e'.prev == e.now
      && e'.Load() == b.work + (if measured <= 50 then b.oversleep else 0)
      && e'.sleep == (if measured <= 50 then 50 - measured else 0)
  {
    PlausibleParts(beats, b);
    DriftIsExact(s, beats);
    RunSnoc(s, beats, b);
    var e := Run(s, beats);
    IterationBalance(e, b);
    TimeDiffOfWrappedClock(e.prev, e.now - e.prev);
  }

  lemma PlausibleParts(beats: seq<Beat>, b: Beat)
    requires Plausible(beats + [b])
    ensures Plausible(beats) && Plausible([b])
  {
    assert forall i :: 0 <= i < |beats| ==> beats[i] == (beats + [b])[i];
    assert (beats + [b])[|beats|] == b;
  }

  lemma SleepAbove50Iff(s: LoopState, b: Beat)
    requires s.Sane() && Plausible([b])
    ensures 0 <= Iterate(s, b).sleep <= WORLD_SLEEP + 1
    ensures Iterate(s, b).sleep > WORLD_SLEEP <==> Epoch(s.prev) < Epoch(s.now) && s.Load() == 0
  {
    IterationBalance(s, b);
    TimeDiffOfWrappedClock(s.prev, s.now - s.prev);
  }

  /** In every run the computed sleep is 0 to 50, except that it is 51 exactly when the clock wrapped
      since the previous tick and that tick's update and oversleep took no time at all. */
  lemma SleepStaysInRange(s: LoopState, beats: seq<Beat>, b: Beat)
    requires s.Sane() && Plausible(beats + [b])
    ensures var e := Run(s, beats);
      && 0 <= Run(s, beats + [b]).sleep <= WORLD_SLEEP + 1
      && (Run(s, beats + [b]).sleep > WORLD_SLEEP <==> Epoch(e.prev) < Epoch(e.now) && e.Load() == 0)
  {
    PlausibleParts(beats, b);
    DriftIsExact(s, beats);
    RunSnoc(s, beats, b);
    SleepAbove50Iff(Run(s, beats), b);
  }

  /** The 51 does occur in a run that starts, as every run does, with the clock at 0: a first update of
      almost 2^31 ms, one of a millisecond that ends just short of the wrap, and two of none. */
  lemma AWrapCanAskFor51()
    ensures var beats := [Beat(TWO31 - 52, 0), Beat(1, 0), Beat(0, 0), Beat(0, 0)];
      Plausible(beats) && Run(LoopState(0, 0, 0), beats).sleep == 51
  {
    var b0, b1, b2, b3 := Beat(TWO31 - 52, 0), Beat(1, 0), Beat(0, 0), Beat(0, 0);
    var s1 := LoopState(TWO31 - 2, 0, 50);
    var s2 := LoopState(TWO31 - 1, TWO31 - 2, 0);
    var s3 := Iterate(s2, b2);
    assert Iterate(LoopState(0, 0, 0), b0) == s1;
    assert Iterate(s1, b1) == s2;
    assert s3 == LoopState(TWO31 + 48, TWO31 - 1, 49);
    assert Epoch(TWO31 - 1) == 0 && Epoch(TWO31 + 48) == 1;
    assert Plausible([b3]);
    IterationBalance(s3, b3);
    Unfold4(LoopState(0, 0, 0), b0, b1, b2, b3);
  }

  lemma Unfold4(s: LoopState, b0: Beat, b1: Beat, b2: Beat, b3: Beat)
    ensures Run(s, [b0, b1, b2, b3]) == Iterate(Iterate(Iterate(Iterate(s, b0), b1), b2), b3)
  {
    RunSnoc(s, [], b0);
    RunSnoc(s, [b0], b1);
    RunSnoc(s, [b0, b1], b2);
    RunSnoc(s, [b0, b1, b2], b3);
    assert [] + [b0] == [b0] && [b0] + [b1] == [b0, b1] && [b0, b1] + [b2] == [b0, b1, b2];
    assert [b0, b1, b2] + [b3] == [b0, b1, b2, b3];
  }

  lemma {:induction false} LightRunsLoseNothing(s: LoopState, beats: seq<Beat>)
    requires s.Sane() && s.Load() <= WORLD_SLEEP
    requires Plausible(beats) && forall i :: 0 <= i < |beats| ==> beats[i].work + beats[i].oversleep <= WORLD_SLEEP
    ensures Lost(s, beats) == 0 && Run(s, beats).Load() <= WORLD_SLEEP
    decreases |beats|
  {
    if beats != [] {
      assert Plausible([beats[0]]);
      IterationBalance(s, beats[0]);
      LightRunsLoseNothing(Iterate(s, beats[0]), beats[1..]);
    }
  }

  /** If every update and its oversleep together stay within 50 ms, then every tick starts within 50 ms
      of the ideal grid, however many ticks there are, give or take one per wrap of the clock. */
  lemma LightRunsKeepTheGrid(loaded: int, started: int, beats: seq<Beat>)
    requires 0 <= started - loaded <= WORLD_SLEEP
    requires Plausible(beats) && forall i :: 0 <= i < |beats| ==> beats[i].work + beats[i].oversleep <= WORLD_SLEEP
    ensures var e := Run(LoopState(started, loaded, 0), beats);
      var ideal := started + WORLD_SLEEP * |beats| + (Epoch(e.prev) - Epoch(loaded));
      ideal - WORLD_SLEEP <= e.now <= ideal + WORLD_SLEEP
  {
    var s := LoopState(started, loaded, 0);
    DriftIsExact(s, beats);
    LightRunsLoseNothing(s, beats);
  }

  /** However heavy the load, the loop never gets ahead of the grid by more than its first delay. */
  lemma NeverAheadOfTheGrid(loaded: int, started: int, beats: seq<Beat>)
    requires 0 <= started - loaded < TWO31 && Plausible(beats)
    ensures Run(LoopState(started, loaded, 0), beats).now >= started + WORLD_SLEEP * |beats| - (started - loaded)
  {
    DriftIsExact(LoopState(started, loaded, 0), beats);
  }
}
