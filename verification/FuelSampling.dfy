/** When the fuel refill tracker samples, what it then holds, and when its check
    runs: told by the inputs of its calls alone. */
module FuelSampling {
  import opened Bytes
  import opened FuelHistory
  import opened FuelRefill
  import opened Wrappers

  /** The call finds tracking switched on and inputs it can use. */
  predicate Good(i: Input) {
    && i.car.enabled && i.car.fuelLevel <= 100 && i.now > 5000
    && 2020 <= i.car.clock.year <= 2099 && 1 <= i.car.clock.month <= 12 && 1 <= i.car.clock.day <= 31
    && i.car.clock.hour <= 23 && i.car.clock.minute <= 59 && i.car.clock.second <= 59
  }

  /** From call j to call n the ignition was never seen to change. */
  predicate SameIgnition(inputs: seq<Input>, j: nat, n: nat)
    requires j <= n < |inputs|
  {
    forall k | j <= k <= n && Good(inputs[k]) :: inputs[k].car.ignition == inputs[n].car.ignition
  }

  /** Call n samples: its inputs are good, and no call before it that sampled, since
      the ignition last changed, is less than 2500 ms old. */
  predicate Samples(inputs: seq<Input>, n: nat)
    requires n < |inputs|
    decreases n
  {
    && Good(inputs[n])
    && forall j | 0 <= j < n && Samples(inputs, j) && SameIgnition(inputs, j, n) ::
         inputs[n].now >= inputs[j].now + 2500
  }

  /** The sample of call k is still held after n calls: it was taken with the ignition
      on, and every call since that found tracking switched on was good, with the ignition on. */
  predicate Held(inputs: seq<Input>, k: nat, n: nat)
    requires n <= |inputs|
  {
    && k < n && Samples(inputs, k) && inputs[k].car.ignition
    && forall m | k <= m < n && inputs[m].car.enabled :: Good(inputs[m]) && inputs[m].car.ignition
  }

  /** The levels of the samples among the first m calls that are held after n calls. */
  function HeldLevels(inputs: seq<Input>, m: nat, n: nat): seq<byte>
    requires m <= n <= |inputs|
  {
    if m == 0 then []
    else HeldLevels(inputs, m - 1, n) + if Held(inputs, m - 1, n) then [inputs[m - 1].car.fuelLevel] else []
  }

  /** The last five samples held. */
  function Window(inputs: seq<Input>, n: nat): seq<byte>
    requires n <= |inputs|
  {
    LastFive(HeldLevels(inputs, n, n))
  }

  lemma GoodIsUsable(i: Input)
    ensures Good(i) <==> i.car.enabled && Usable(i.now, i.car)
  {
  }

  // ---- The clock of the samples ----

  /** After n calls: g is the last good one and c the last one that sampled since the
      ignition changed, -1 if there is none. */
  predicate Timed(inputs: seq<Input>, n: nat, tr: Tracker, g: int, c: int)
    requires n <= |inputs|
  {
    && -1 <= c <= g < n && (g >= 0 ==> Good(inputs[g])) && (forall k | g < k < n :: !Good(inputs[k]))
    && tr.ignitionInitialized == (g >= 0) && (g >= 0 ==> tr.previousIgnition == inputs[g].car.ignition)
    && tr.lastSampleTime == (if c >= 0 then inputs[c].now else 0)
    && (c >= 0 ==> Samples(inputs, c) && SameIgnition(inputs, c, g))
    && forall j | c < j <= g && Samples(inputs, j) :: !SameIgnition(inputs, j, g)
  }

  lemma IgnitionUpTo(inputs: seq<Input>, n: nat, tr: Tracker, g: int, c: int, j: nat)
    requires n < |inputs| && Timed(inputs, n, tr, g, c) && Good(inputs[n]) && j <= g
    ensures SameIgnition(inputs, j, n)
            <==> SameIgnition(inputs, j, g) && inputs[g].car.ignition == inputs[n].car.ignition
  {
    hide Good, Samples;
  }

  lemma SampledBefore(inputs: seq<Input>, n: nat, tr: Tracker, g: int, c: int, j: nat)
    requires n < |inputs| && Timed(inputs, n, tr, g, c) && j < n && Samples(inputs, j)
    ensures j <= g
  {
  }

  /** A good call samples exactly if the tracker does not find it too soon. */
  lemma SamplesExactly(inputs: seq<Input>, n: nat, tr: Tracker, g: int, c: int)
    requires InTime(inputs) && n < |inputs| && Timed(inputs, n, tr, g, c) && Good(inputs[n])
    ensures Samples(inputs, n) <==>
              c < 0 || inputs[n].car.ignition != inputs[g].car.ignition || inputs[n].now >= inputs[c].now + 2500
    ensures Samples(inputs, n) <==> !TooSoon(inputs[n].now, IgnitionObserved(tr, inputs[n].car.ignition).lastSampleTime)
  {
    var same := g >= 0 && inputs[n].car.ignition == inputs[g].car.ignition;
    forall j | 0 <= j < n && Samples(inputs, j)
      ensures j <= g && (SameIgnition(inputs, j, n) ==> same && c >= 0 && inputs[j].now <= inputs[c].now)
    {
      SampledBefore(inputs, n, tr, g, c, j);
      IgnitionUpTo(inputs, n, tr, g, c, j);
    }
    if c >= 0 {
      IgnitionUpTo(inputs, n, tr, g, c, c);
      assert inputs[c].now > 5000 && inputs[c].now <= inputs[n].now;
    }
  }

  /** What a call does to the ignition flags and the time of the last sample. */
  lemma StepClock(tr: Tracker, disk: Disk, now: nat, car: Car)
    ensures var tr', observed := Step(tr, disk, now, car).0, IgnitionObserved(tr, car.ignition);
            && tr'.ignitionInitialized == (if car.enabled && Usable(now, car) then true else tr.ignitionInitialized)
            && tr'.previousIgnition == (if car.enabled && Usable(now, car) then car.ignition else tr.previousIgnition)
            && tr'.lastSampleTime == (if !(car.enabled && Usable(now, car)) then tr.lastSampleTime
                                      else if TooSoon(now, observed.lastSampleTime) then observed.lastSampleTime
                                      else now)
  {
    hide Evaluated, Usable, TooSoon;
    EvaluatedKeepsSamples(Sampled(IgnitionObserved(tr, car.ignition), now, car), disk, car);
  }

  lemma IdleTimed(inputs: seq<Input>, n: nat, tr: Tracker, tr': Tracker, g: int, c: int)
    requires n < |inputs| && Timed(inputs, n, tr, g, c) && !Good(inputs[n])
    requires tr'.ignitionInitialized == tr.ignitionInitialized && tr'.previousIgnition == tr.previousIgnition
    requires tr'.lastSampleTime == tr.lastSampleTime
    ensures Timed(inputs, n + 1, tr', g, c)
  {
    hide Samples, SameIgnition;
  }

  lemma SampleTimed(inputs: seq<Input>, n: nat, tr': Tracker)
    requires n < |inputs| && Samples(inputs, n)
    requires tr'.ignitionInitialized && tr'.previousIgnition == inputs[n].car.ignition
    requires tr'.lastSampleTime == inputs[n].now
    ensures Timed(inputs, n + 1, tr', n, n)
  {
  }

  lemma WaitTimed(inputs: seq<Input>, n: nat, tr: Tracker, tr': Tracker, g: int, c: int)
    requires n < |inputs| && Timed(inputs, n, tr, g, c) && Good(inputs[n]) && !Samples(inputs, n)
    requires c >= 0 && inputs[n].car.ignition == inputs[g].car.ignition
    requires tr'.ignitionInitialized && tr'.previousIgnition == inputs[n].car.ignition
    requires tr'.lastSampleTime == inputs[c].now
    ensures Timed(inputs, n + 1, tr', n, c)
  {
    IgnitionUpTo(inputs, n, tr, g, c, c);
    forall j | c < j <= n && Samples(inputs, j) ensures !SameIgnition(inputs, j, n) {
      SampledBefore(inputs, n, tr, g, c, j);
      IgnitionUpTo(inputs, n, tr, g, c, j);
    }
  }

  lemma StepTimed(inputs: seq<Input>, n: nat, tr: Tracker, disk: Disk, g: int, c: int) returns (g': int, c': int)
    requires InTime(inputs) && n < |inputs| && Timed(inputs, n, tr, g, c)
    ensures Timed(inputs, n + 1, Step(tr, disk, inputs[n].now, inputs[n].car).0, g', c')
  {
    var i, tr' := inputs[n], Step(tr, disk, inputs[n].now, inputs[n].car).0;
    GoodIsUsable(i);
    StepClock(tr, disk, i.now, i.car);
    hide Step, Usable;
    if !Good(i) {
      g', c' := g, c;
      hide Good;
      IdleTimed(inputs, n, tr, tr', g, c);
    } else {
      SamplesExactly(inputs, n, tr, g, c);
      g' := n;
      if Samples(inputs, n) {
        c' := n;
        SampleTimed(inputs, n, tr');
      } else {
        c' := c;
        WaitTimed(inputs, n, tr, tr', g, c);
      }
    }
  }

  lemma {:induction false} AlwaysTimed(loaded: PersistedState, outcomes: seq<bool>, inputs: seq<Input>, n: nat)
    returns (g: int, c: int)
    requires InTime(inputs) && n <= |inputs|
    ensures Timed(inputs, n, After(loaded, outcomes, inputs, n).0, g, c)
  {
    hide Step, Timed, InTime;
    if n == 0 {
      g, c := -1, -1;
      NothingTimed(loaded, inputs);
    } else {
      var before := After(loaded, outcomes, inputs, n - 1);
      g, c := AlwaysTimed(loaded, outcomes, inputs, n - 1);
      g, c := StepTimed(inputs, n - 1, before.0, before.1, g, c);
    }
  }

  lemma NothingTimed(loaded: PersistedState, inputs: seq<Input>)
    ensures Timed(inputs, 0, FreshTracker(loaded), -1, -1)
  {
  }

  // ---- The samples held ----

  /** What a call does to the samples. */
  lemma StepWindow(tr: Tracker, disk: Disk, now: nat, car: Car)
    ensures var tr', observed := Step(tr, disk, now, car).0, IgnitionObserved(tr, car.ignition);
            tr'.window == if !car.enabled then tr.window
                          else if !Usable(now, car) then []
                          else if TooSoon(now, observed.lastSampleTime) || !car.ignition then observed.window
                          else LastFive(observed.window + [car.fuelLevel])
    ensures IgnitionObserved(tr, car.ignition).window
         == if tr.ignitionInitialized && car.ignition != tr.previousIgnition then [] else tr.window
  {
    hide Evaluated, Usable, TooSoon, LastFive;
    EvaluatedKeepsSamples(Sampled(IgnitionObserved(tr, car.ignition), now, car), disk, car);
  }

  lemma {:induction false} SameHeld(inputs: seq<Input>, m: nat, n: nat)
    requires m <= n < |inputs|
    requires forall k | 0 <= k < m :: Held(inputs, k, n + 1) <==> Held(inputs, k, n)
    ensures HeldLevels(inputs, m, n + 1) == HeldLevels(inputs, m, n)
  {
    hide Held;
    if m > 0 {
      SameHeld(inputs, m - 1, n);
    }
  }

  lemma {:induction false} NoneHeld(inputs: seq<Input>, m: nat, n: nat)
    requires m <= n <= |inputs|
    requires forall k | 0 <= k < m :: !Held(inputs, k, n)
    ensures HeldLevels(inputs, m, n) == []
  {
    hide Held;
    if m > 0 {
      NoneHeld(inputs, m - 1, n);
    }
  }

  lemma OneMoreHeld(inputs: seq<Input>, k: nat, n: nat)
    requires k < n < |inputs|
    ensures Held(inputs, k, n + 1)
            <==> Held(inputs, k, n) && (inputs[n].car.enabled ==> Good(inputs[n]) && inputs[n].car.ignition)
  {
    hide Samples, Good;
  }

  lemma NewestHeld(inputs: seq<Input>, n: nat)
    requires n < |inputs|
    ensures Held(inputs, n, n + 1) <==> Samples(inputs, n) && inputs[n].car.ignition
  {
  }

  lemma HeldSinceGood(inputs: seq<Input>, n: nat, tr: Tracker, g: int, c: int, k: nat)
    requires n < |inputs| && Timed(inputs, n, tr, g, c) && Held(inputs, k, n)
    ensures g >= 0 && inputs[g].car.ignition
  {
    SampledBefore(inputs, n, tr, g, c, k);
  }

  /** The window by one more call, in terms of the inputs. */
  lemma WindowStep(inputs: seq<Input>, n: nat, tr: Tracker, g: int, c: int)
    requires n < |inputs| && Timed(inputs, n, tr, g, c)
    ensures var i, kept := inputs[n], HeldLevels(inputs, n, n + 1);
            && HeldLevels(inputs, n + 1, n + 1)
               == kept + (if Samples(inputs, n) && i.car.ignition then [i.car.fuelLevel] else [])
            && (!i.car.enabled ==> kept == HeldLevels(inputs, n, n))
            && (i.car.enabled && !Good(i) ==> kept == [])
            && (Good(i) && !i.car.ignition ==> kept == [])
            && (Good(i) && i.car.ignition ==>
                  kept == if g >= 0 && !inputs[g].car.ignition then [] else HeldLevels(inputs, n, n))
            && (g < 0 || !inputs[g].car.ignition ==> HeldLevels(inputs, n, n) == [])
  {
    NewestHeld(inputs, n);
    var i := inputs[n];
    forall k | 0 <= k < n
      ensures Held(inputs, k, n + 1) <==> Held(inputs, k, n) && (i.car.enabled ==> Good(i) && i.car.ignition)
      ensures g < 0 || !inputs[g].car.ignition ==> !Held(inputs, k, n)
    {
      OneMoreHeld(inputs, k, n);
      if Held(inputs, k, n) {
        HeldSinceGood(inputs, n, tr, g, c, k);
      }
    }
    hide Held, Samples, Good, Timed;
    if g < 0 || !inputs[g].car.ignition {
      NoneHeld(inputs, n, n);
    }
    if i.car.enabled && !(Good(i) && i.car.ignition) {
      NoneHeld(inputs, n, n + 1);
    } else {
      SameHeld(inputs, n, n);
    }
  }

  lemma LastFiveAdds(all: seq<byte>, level: byte)
    ensures LastFive(LastFive(all) + [level]) == LastFive(all + [level])
    ensures LastFive([] + all) == LastFive(all) && LastFive<byte>([]) == []
  {
    assert [] + all == all;
  }

  /** At every point of every run the tracker holds the last five samples held, by
      the inputs alone. */
  lemma {:induction false} WindowExactly(loaded: PersistedState, outcomes: seq<bool>, inputs: seq<Input>, n: nat)
    requires InTime(inputs) && n <= |inputs|
    ensures After(loaded, outcomes, inputs, n).0.window == Window(inputs, n)
  {
    hide Step, Timed, InTime, HeldLevels, LastFive;
    if n == 0 {
      NoWindow(inputs);
    } else {
      WindowExactly(loaded, outcomes, inputs, n - 1);
      var before := After(loaded, outcomes, inputs, n - 1);
      var g, c := AlwaysTimed(loaded, outcomes, inputs, n - 1);
      StepHolds(inputs, n - 1, before.0, before.1, g, c);
    }
  }

  lemma NoWindow(inputs: seq<Input>)
    ensures Window(inputs, 0) == []
  {
  }

  lemma StepHolds(inputs: seq<Input>, n: nat, tr: Tracker, disk: Disk, g: int, c: int)
    requires InTime(inputs) && n < |inputs| && Timed(inputs, n, tr, g, c) && tr.window == Window(inputs, n)
    ensures Step(tr, disk, inputs[n].now, inputs[n].car).0.window == Window(inputs, n + 1)
  {
    var i := inputs[n];
    GoodIsUsable(i);
    StepWindow(tr, disk, i.now, i.car);
    WindowStep(inputs, n, tr, g, c);
    LastFiveAdds(HeldLevels(inputs, n, n), i.car.fuelLevel);
    LastFiveAdds([], i.car.fuelLevel);
    assert forall kept: seq<byte> :: kept + [] == kept;
    if Good(i) {
      SamplesExactly(inputs, n, tr, g, c);
    }
    assert !Good(i) ==> !Samples(inputs, n);
    hide Step, Usable, Good, InTime, HeldLevels, LastFive, IgnitionObserved, TooSoon, SameIgnition, Samples;
    var earlier, kept := HeldLevels(inputs, n, n), HeldLevels(inputs, n, n + 1);
    var window := Step(tr, disk, i.now, i.car).0.window;
    if !i.car.enabled {
      assert window == LastFive(earlier) && kept == earlier;
    } else if !Good(i) {
      assert window == [] && kept == [];
    } else if !i.car.ignition {
      assert kept == [] && window == [];
    } else if g >= 0 && !inputs[g].car.ignition {
      assert kept == [] && Samples(inputs, n) && window == LastFive([] + [i.car.fuelLevel]);
    } else {
      assert kept == earlier;
      var sampled := Samples(inputs, n);
      assert window == if sampled then LastFive(LastFive(earlier) + [i.car.fuelLevel]) else LastFive(earlier);
    }
  }

  // ---- Levels ----

  /** The call samples, five samples are held, and the last five lie within 2 percent. */
  predicate HasLevel(inputs: seq<Input>, n: nat)
    requires n < |inputs|
  {
    var window := Window(inputs, n + 1);
    Samples(inputs, n) && |window| == 5 && forall i, j | 0 <= i < 5 && 0 <= j < 5 :: window[i] <= (window[j] as int) + 2
  }

  lemma WindowSize(inputs: seq<Input>, n: nat)
    requires n <= |inputs|
    ensures |Window(inputs, n)| <= 5
  {
  }

  /** A level is evaluated exactly then, and it is the median of the five. */
  lemma LevelExactly(loaded: PersistedState, outcomes: seq<bool>, inputs: seq<Input>, n: nat)
    requires InTime(inputs) && n < |inputs|
    ensures LevelAt(loaded, outcomes, inputs, n).Some? <==> HasLevel(inputs, n)
    ensures HasLevel(inputs, n) ==>
              var level, window := LevelAt(loaded, outcomes, inputs, n).value, Window(inputs, n + 1);
              level in window && AtMost(window, level) >= 3 && AtLeast(window, level) >= 3
  {
    var i := inputs[n];
    var (tr, disk) := After(loaded, outcomes, inputs, n);
    var g, c := AlwaysTimed(loaded, outcomes, inputs, n);
    GoodIsUsable(i);
    WindowExactly(loaded, outcomes, inputs, n + 1);
    WindowSize(inputs, n + 1);
    if Good(i) {
      SamplesExactly(inputs, n, tr, g, c);
    }
    assert !Good(i) ==> !Samples(inputs, n);
    LevelIsOfWindow(tr, disk, i.now, i.car);
    var window := Window(inputs, n + 1);
    hide Step, Usable, Good, InTime, Window, IgnitionObserved, TooSoon, SameIgnition, Samples, LevelOf, Timed;
    if |window| == 5 {
      StableLevelIsMedian(window);
    }
    hide AtMost, AtLeast;
  }

  lemma LevelIsOfWindow(tr: Tracker, disk: Disk, now: nat, car: Car)
    ensures LevelOf(tr, now, car)
         == if car.enabled && Usable(now, car)
               && !TooSoon(now, IgnitionObserved(tr, car.ignition).lastSampleTime)
            then StableLevel(Step(tr, disk, now, car).0.window) else None
  {
    hide Evaluated, Usable, TooSoon, StableLevel, LastFive;
    EvaluatedKeepsSamples(Sampled(IgnitionObserved(tr, car.ignition), now, car), disk, car);
  }

  /** A level is only ever evaluated with the ignition on. */
  lemma LevelMeansOn(inputs: seq<Input>, n: nat)
    requires n < |inputs| && HasLevel(inputs, n)
    ensures inputs[n].car.ignition && inputs[n].car.enabled && Good(inputs[n])
  {
    var next := n + 1;
    if !inputs[n].car.ignition {
      forall k | 0 <= k < next ensures !Held(inputs, k, next) {
      }
      NoneHeld(inputs, next, next);
    }
  }

  // ---- The startup check ----

  /** Without a checkpoint the check is never complete. */
  lemma {:induction false} IncompleteWithoutCheckpoint(loaded: PersistedState, outcomes: seq<bool>, inputs: seq<Input>,
                                                       n: nat)
    requires n <= |inputs|
    ensures var tr := After(loaded, outcomes, inputs, n).0; tr.startupComplete ==> tr.state.checkpoint.Some?
  {
    hide Step;
    if n > 0 {
      IncompleteWithoutCheckpoint(loaded, outcomes, inputs, n - 1);
      var before := After(loaded, outcomes, inputs, n - 1);
      StepCompletesWithCheckpoint(before.0, before.1, inputs[n - 1].now, inputs[n - 1].car);
    }
  }

  lemma StepCompletesWithCheckpoint(tr: Tracker, disk: Disk, now: nat, car: Car)
    requires tr.startupComplete ==> tr.state.checkpoint.Some?
    ensures var tr' := Step(tr, disk, now, car).0; tr'.startupComplete ==> tr'.state.checkpoint.Some?
  {
    var sampled := Sampled(IgnitionObserved(tr, car.ignition), now, car);
    EvaluatedCompletes(sampled, disk, car);
    hide Usable, TooSoon, Evaluated;
  }

  lemma EvaluatedCompletes(tr: Tracker, disk: Disk, car: Car)
    requires tr.startupComplete ==> tr.state.checkpoint.Some?
    ensures var tr' := Evaluated(tr, disk, car).0; tr'.startupComplete ==> tr'.state.checkpoint.Some?
  {
    var level := StableLevel(tr.window);
    if level.Some? {
      CompleteMeansNear(tr, disk, car, level.value);
      OffKeepsCheckpoint(tr, disk, car, level.value);
    }
    hide StableLevel, Startup, IgnitionOff;
  }

  lemma OffKeepsCheckpoint(tr: Tracker, disk: Disk, car: Car, fuel: byte)
    ensures var off := IgnitionOff(tr, disk, car, fuel).0;
            && off.startupComplete == tr.startupComplete
            && (tr.state.checkpoint.Some? ==> off.state.checkpoint.Some?)
  {
    hide IsWallClockValid, IsDecrease;
  }

  /** Whether the check is due at a call: no check has been completed since the
      ignition was last seen to be switched on. */
  predicate CheckDue(loaded: PersistedState, outcomes: seq<bool>, inputs: seq<Input>, n: nat)
    requires n < |inputs|
  {
    forall k | 0 <= k < n && Completes(loaded, outcomes, inputs, k) ::
      exists m :: k < m <= n && SwitchesOn(inputs, m)
  }

  /** Call k runs the check, and the check is complete after it. */
  predicate Completes(loaded: PersistedState, outcomes: seq<bool>, inputs: seq<Input>, k: nat)
    requires k < |inputs|
  {
    var (tr, _) := After(loaded, outcomes, inputs, k);
    StartupRuns(tr, inputs[k].now, inputs[k].car) && After(loaded, outcomes, inputs, k + 1).0.startupComplete
  }

  /** A good call with the ignition on, after a last good one with the ignition off. */
  predicate SwitchesOn(inputs: seq<Input>, m: nat)
    requires m < |inputs|
  {
    && Good(inputs[m]) && inputs[m].car.ignition
    && exists g :: 0 <= g < m && Good(inputs[g]) && !inputs[g].car.ignition && forall k | g < k < m :: !Good(inputs[k])
  }

  lemma SwitchesOnExactly(inputs: seq<Input>, n: nat, tr: Tracker, g: int, c: int)
    requires n < |inputs| && Timed(inputs, n, tr, g, c) && Good(inputs[n])
    ensures SwitchesOn(inputs, n) <==> tr.ignitionInitialized && !tr.previousIgnition && inputs[n].car.ignition
  {
    hide Samples, SameIgnition;
    if SwitchesOn(inputs, n) {
      var h :| 0 <= h < n && Good(inputs[h]) && !inputs[h].car.ignition && forall k | h < k < n :: !Good(inputs[k]);
      assert h == g;
    }
    if tr.ignitionInitialized && !tr.previousIgnition && inputs[n].car.ignition {
      assert 0 <= g < n;
    }
    hide Good;
  }

  /** The flag after a call: set by a completed check, cleared by switching on. */
  lemma FlagStep(tr: Tracker, disk: Disk, now: nat, car: Car)
    ensures var tr' := Step(tr, disk, now, car).0;
            var on := car.enabled && Usable(now, car) && tr.ignitionInitialized && !tr.previousIgnition && car.ignition;
            && (StartupRuns(tr, now, car) ==> car.ignition && (on || !tr.startupComplete))
            && (!StartupRuns(tr, now, car) ==> tr'.startupComplete == (if on then false else tr.startupComplete))
            && (LevelOf(tr, now, car).Some? && car.ignition && (on || !tr.startupComplete) ==>
                  StartupRuns(tr, now, car))
  {
    var sampled := Sampled(IgnitionObserved(tr, car.ignition), now, car);
    hide StableLevel, Startup, IgnitionOff, IsWallClockValid;
    if StableLevel(sampled.window).Some? {
      OffKeepsFlags(sampled, disk, car, StableLevel(sampled.window).value);
    }
  }

  /** The flag says whether a completed check is still good. */
  predicate StillComplete(loaded: PersistedState, outcomes: seq<bool>, inputs: seq<Input>, n: nat, k: nat)
    requires n <= |inputs|
  {
    k < n && Completes(loaded, outcomes, inputs, k) && forall m | k < m < n :: !SwitchesOn(inputs, m)
  }

  lemma {:induction false} FlagExactly(loaded: PersistedState, outcomes: seq<bool>, inputs: seq<Input>, n: nat)
    requires InTime(inputs) && n <= |inputs|
    ensures After(loaded, outcomes, inputs, n).0.startupComplete
            <==> exists k :: StillComplete(loaded, outcomes, inputs, n, k)
  {
    hide Step, StartupRuns, Timed, SwitchesOn, InTime, Good, Usable;
    if n > 0 {
      FlagExactly(loaded, outcomes, inputs, n - 1);
      var m := n - 1;
      var (tr, disk) := After(loaded, outcomes, inputs, m);
      var i := inputs[m];
      FlagStep(tr, disk, i.now, i.car);
      GoodIsUsable(i);
      var g, c := AlwaysTimed(loaded, outcomes, inputs, m);
      SwitchStep(inputs, m, tr, g, c);
      CompleteStep(loaded, outcomes, inputs, m, n);
    }
  }

  lemma SwitchStep(inputs: seq<Input>, n: nat, tr: Tracker, g: int, c: int)
    requires n < |inputs| && Timed(inputs, n, tr, g, c)
    ensures SwitchesOn(inputs, n) <==>
              Good(inputs[n]) && tr.ignitionInitialized && !tr.previousIgnition && inputs[n].car.ignition
  {
    if Good(inputs[n]) {
      SwitchesOnExactly(inputs, n, tr, g, c);
    }
    hide Timed, Good;
  }

  /** A check completed by the last call, or an earlier one if the ignition was not switched on. */
  lemma CompleteStep(loaded: PersistedState, outcomes: seq<bool>, inputs: seq<Input>, n: nat, next: nat)
    requires n < next == n + 1 <= |inputs|
    ensures (exists k :: StillComplete(loaded, outcomes, inputs, next, k)) <==>
              || Completes(loaded, outcomes, inputs, n)
              || (!SwitchesOn(inputs, n) && exists k :: StillComplete(loaded, outcomes, inputs, n, k))
  {
    hide Completes, SwitchesOn;
    if Completes(loaded, outcomes, inputs, n) {
      assert StillComplete(loaded, outcomes, inputs, next, n);
    }
    if k: nat :| StillComplete(loaded, outcomes, inputs, next, k) {
      assert k < n ==> StillComplete(loaded, outcomes, inputs, n, k);
    }
    if !SwitchesOn(inputs, n) && exists k :: StillComplete(loaded, outcomes, inputs, n, k) {
      var k: nat :| StillComplete(loaded, outcomes, inputs, n, k);
      assert StillComplete(loaded, outcomes, inputs, next, k);
    }
  }

  /** The startup check runs exactly at the calls with a level at which it is due. */
  lemma CheckRunsExactly(loaded: PersistedState, outcomes: seq<bool>, inputs: seq<Input>, n: nat)
    requires InTime(inputs) && n < |inputs|
    ensures StartupRuns(After(loaded, outcomes, inputs, n).0, inputs[n].now, inputs[n].car)
            <==> HasLevel(inputs, n) && CheckDue(loaded, outcomes, inputs, n)
  {
    var (tr, disk) := After(loaded, outcomes, inputs, n);
    var i := inputs[n];
    var g, c := AlwaysTimed(loaded, outcomes, inputs, n);
    LevelExactly(loaded, outcomes, inputs, n);
    FlagExactly(loaded, outcomes, inputs, n);
    FlagStep(tr, disk, i.now, i.car);
    GoodIsUsable(i);
    SwitchStep(inputs, n, tr, g, c);
    RunsOnlyWithLevel(tr, i.now, i.car);
    if HasLevel(inputs, n) {
      LevelMeansOn(inputs, n);
    }
    DueExactly(loaded, outcomes, inputs, n);
    hide Step, StartupRuns, Timed, SwitchesOn, InTime, Good, Usable, HasLevel, LevelOf, CheckDue, StillComplete, After;
  }

  lemma RunsOnlyWithLevel(tr: Tracker, now: nat, car: Car)
    ensures StartupRuns(tr, now, car) ==> LevelOf(tr, now, car).Some?
  {
    hide LevelOf;
  }

  lemma DueExactly(loaded: PersistedState, outcomes: seq<bool>, inputs: seq<Input>, n: nat)
    requires n < |inputs|
    ensures CheckDue(loaded, outcomes, inputs, n)
            <==> SwitchesOn(inputs, n) || !exists k :: StillComplete(loaded, outcomes, inputs, n, k)
  {
    hide Completes, SwitchesOn;
    if CheckDue(loaded, outcomes, inputs, n) && !SwitchesOn(inputs, n) {
      forall k: nat ensures !StillComplete(loaded, outcomes, inputs, n, k) {
        if k < n && Completes(loaded, outcomes, inputs, k) {
          var m :| k < m <= n && SwitchesOn(inputs, m);
        }
      }
    }
    if !exists k :: StillComplete(loaded, outcomes, inputs, n, k) {
      forall k | 0 <= k < n && Completes(loaded, outcomes, inputs, k)
        ensures exists m :: k < m <= n && SwitchesOn(inputs, m)
      {
        assert !StillComplete(loaded, outcomes, inputs, n, k);
      }
    }
  }

  /** The first checkpoint: at a call with a level, if there is none yet and the disk
      takes it, one is saved, with that level and the odometer and clock of the call. */
  lemma FirstCheckpointSaved(loaded: PersistedState, outcomes: seq<bool>, inputs: seq<Input>, n: nat)
    returns (level: byte)
    requires InTime(inputs) && n < |inputs| && HasLevel(inputs, n)
    requires var (tr, disk) := After(loaded, outcomes, inputs, n); tr.state.checkpoint.None? && Succeeds(disk, 0)
    ensures LevelAt(loaded, outcomes, inputs, n) == Some(level)
    ensures var (tr', disk'), car := After(loaded, outcomes, inputs, n + 1), inputs[n].car;
            && tr'.state.checkpoint == Some(Checkpoint(car.clock, car.odometer, level)) && tr'.startupComplete
            && disk'.saves == After(loaded, outcomes, inputs, n).1.saves + [tr'.state]
  {
    var (tr, disk) := After(loaded, outcomes, inputs, n);
    var i := inputs[n];
    IncompleteWithoutCheckpoint(loaded, outcomes, inputs, n);
    LevelExactly(loaded, outcomes, inputs, n);
    LevelMeansOn(inputs, n);
    GoodIsUsable(i);
    FlagStep(tr, disk, i.now, i.car);
    hide HasLevel, InTime;
    RecordsChangeOnlyInChecks(tr, disk, i.now, i.car);
    var sampled := Sampled(IgnitionObserved(tr, i.car.ignition), i.now, i.car);
    level := LevelOf(tr, i.now, i.car).value;
    FirstSave(sampled, disk, i.car, level);
    hide Step, Startup, Sampled, IgnitionObserved, LevelOf, StartupRuns, Good;
  }

  lemma FirstSave(tr: Tracker, disk: Disk, car: Car, level: byte)
    requires tr.state.checkpoint.None? && Succeeds(disk, 0) && IsWallClockValid(car.clock)
    ensures var e := Startup(tr, disk, car, level);
            && e.ok && e.disk.saves == disk.saves + [e.tracker.state]
            && e.tracker.state.checkpoint == Some(Checkpoint(car.clock, car.odometer, level))
  {
    hide IsWallClockValid, Push;
  }
}
