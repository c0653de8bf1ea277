/** The fuel refill tracker over whole runs: what a stable level means, what is
    on record, and how often a refill can be recorded. */
module FuelHistory {
  import opened Bytes
  import opened FuelRefill
  import opened Wrappers

  datatype Input = Input(now: nat, car: Car)

  function FreshTracker(loaded: PersistedState): Tracker {
    Tracker([], 0, false, false, false, false, loaded)
  }

  /** Tracker and disk after the first n calls, starting with what was loaded and any pattern of save outcomes. */
  function After(loaded: PersistedState, outcomes: seq<bool>, inputs: seq<Input>, n: nat): (Tracker, Disk)
    requires n <= |inputs|
  {
    if n == 0 then (FreshTracker(loaded), Disk([], outcomes)) else
    var before := After(loaded, outcomes, inputs, n - 1);
    Step(before.0, before.1, inputs[n - 1].now, inputs[n - 1].car)
  }

  // ---- The median ----

  function AtMost(s: seq<byte>, level: byte): nat {
    if s == [] then 0 else (if s[0] <= level then 1 else 0) + AtMost(s[1..], level)
  }

  function AtLeast(s: seq<byte>, level: byte): nat {
    if s == [] then 0 else (if s[0] >= level then 1 else 0) + AtLeast(s[1..], level)
  }

  lemma {:induction false} CountsOfInsert(x: byte, s: seq<byte>, level: byte)
    ensures AtMost(Insert(x, s), level) == AtMost([x] + s, level)
    ensures AtLeast(Insert(x, s), level) == AtLeast([x] + s, level)
  {
    assert ([x] + s)[1..] == s;
    if s != [] && x > s[0] {
      CountsOfInsert(x, s[1..], level);
      assert ([x] + s[1..])[1..] == s[1..];
      assert ([s[0]] + Insert(x, s[1..]))[1..] == Insert(x, s[1..]);
    }
  }

  lemma {:induction false} CountsOfSort(s: seq<byte>, level: byte)
    ensures AtMost(Sort(s), level) == AtMost(s, level) && AtLeast(Sort(s), level) == AtLeast(s, level)
  {
    if s != [] {
      CountsOfSort(s[1..], level);
      CountsOfInsert(s[0], Sort(s[1..]), level);
      assert ([s[0]] + Sort(s[1..]))[1..] == Sort(s[1..]);
    }
  }

  lemma {:induction false} CountPrefix(s: seq<byte>, level: byte, k: nat)
    requires k <= |s|
    ensures (forall i | 0 <= i < k :: s[i] <= level) ==> AtMost(s, level) >= k
    ensures (forall i | |s| - k <= i < |s| :: s[i] >= level) ==> AtLeast(s, level) >= k
    decreases |s|
  {
    if s != [] {
      assert forall i | 0 <= i < |s| - 1 :: s[1..][i] == s[i + 1];
      if k > 0 {
        CountPrefix(s[1..], level, k - 1);
      }
      if k < |s| {
        CountPrefix(s[1..], level, k);
      }
    }
  }

  lemma SortedEnds(w: seq<byte>)
    requires |w| == 5
    ensures var s := Sort(w);
            && IsSorted(s) && s[0] in w && s[2] in w && s[4] in w
            && forall i | 0 <= i < 5 :: s[0] <= w[i] <= s[4]
  {
    var s := Sort(w);
    SortSorts(w);
    hide Sort;
    assert s[0] in multiset(w) && s[2] in multiset(w) && s[4] in multiset(w);
    forall i | 0 <= i < 5 ensures s[0] <= w[i] <= s[4] {
      assert w[i] in multiset(s);
    }
  }

  lemma StableIffClose(w: seq<byte>)
    requires |w| == 5
    ensures StableLevel(w).Some? <==> forall i, j | 0 <= i < 5 && 0 <= j < 5 :: w[i] <= (w[j] as int) + 2
  {
    SortedEnds(w);
    hide Sort, IsSorted;
    var s := Sort(w);
    var low :| 0 <= low < 5 && w[low] == s[0];
    var high :| 0 <= high < 5 && w[high] == s[4];
  }

  /** A level is reported for five samples exactly when they lie within 2 percent
      of each other; it is then one of them and their median. */
  lemma StableLevelIsMedian(w: seq<byte>)
    requires |w| == 5
    ensures StableLevel(w).Some? <==> forall i, j | 0 <= i < 5 && 0 <= j < 5 :: w[i] <= (w[j] as int) + 2
    ensures StableLevel(w).Some? ==>
              var level := StableLevel(w).value;
              && level in w && AtMost(w, level) >= 3 && AtLeast(w, level) >= 3
              && forall i | 0 <= i < 5 :: -2 <= (w[i] as int) - level <= 2
  {
    StableIffClose(w);
    SortedEnds(w);
    hide Sort, AtMost, AtLeast;
    var s := Sort(w);
    CountsOfSort(w, s[2]);
    CountPrefix(s, s[2], 3);
  }

  // ---- Where the samples come from ----

  /** The clock does not go back and stays within 64 bits. */
  predicate InTime(inputs: seq<Input>) {
    && (forall i | 0 <= i < |inputs| :: inputs[i].now < CLOCK_MODULUS)
    && (forall i, j | 0 <= i < j < |inputs| :: inputs[i].now <= inputs[j].now)
  }

  predicate Quiet(i: Input) {
    i.car.enabled ==> Usable(i.now, i.car) && i.car.ignition
  }

  /** These samples were taken at the calls `at`, 2500 ms apart or more, and
      every call since the first of them found usable inputs and the ignition on. */
  predicate TakenAt(inputs: seq<Input>, n: nat, window: seq<byte>, at: seq<nat>)
    requires n <= |inputs|
  {
    && |at| == |window|
    && (forall j | 0 <= j < |at| :: at[j] < n && inputs[at[j]].car.enabled && Quiet(inputs[at[j]])
                                    && window[j] == inputs[at[j]].car.fuelLevel)
    && (forall j | 0 < j < |at| :: at[j - 1] < at[j] && inputs[at[j]].now >= inputs[at[j - 1]].now + 2500)
    && (forall k | at != [] && at[0] <= k < n :: Quiet(inputs[k]))
  }

  predicate Traced(inputs: seq<Input>, n: nat, tr: Tracker, at: seq<nat>)
    requires n <= |inputs|
  {
    && |tr.window| <= 5 && TakenAt(inputs, n, tr.window, at)
    && (at != [] ==> tr.lastSampleTime == inputs[at[|at| - 1]].now && tr.ignitionInitialized && tr.previousIgnition)
  }

  lemma SavingKeepsSamples(tr: Tracker, disk: Disk, car: Car, fuel: byte, before: byte)
    ensures SavingCheckpoint(tr, disk, car, fuel).tracker
         == tr.(state := SavingCheckpoint(tr, disk, car, fuel).tracker.state)
    ensures AppendingRefill(tr, disk, car, before, fuel).tracker
         == tr.(state := AppendingRefill(tr, disk, car, before, fuel).tracker.state)
  {
    hide WithCheckpoint, IsWallClockValid, IsDuplicate;
  }

  /** Evaluating a stable level touches the records and the flags only. */
  lemma EvaluatedKeepsSamples(tr: Tracker, disk: Disk, car: Car)
    ensures var tr' := Evaluated(tr, disk, car).0;
            tr' == tr.(startupComplete := tr'.startupComplete, offHandled := tr'.offHandled, state := tr'.state)
  {
    var level := StableLevel(tr.window);
    hide StableLevel, AppendingRefill, SavingCheckpoint;
    if level.Some? {
      var before := if tr.state.checkpoint.Some? then tr.state.checkpoint.value.fuelPercent else 0;
      SavingKeepsSamples(tr, disk, car, level.value, before);
      var appended := AppendingRefill(tr, disk, car, before, level.value);
      SavingKeepsSamples(appended.tracker, appended.disk, car, level.value, before);
    }
  }

  lemma ObservedTraced(inputs: seq<Input>, n: nat, tr: Tracker, at: seq<nat>) returns (at': seq<nat>)
    requires n < |inputs| && Traced(inputs, n, tr, at)
    ensures var observed := IgnitionObserved(tr, inputs[n].car.ignition);
            && Traced(inputs, n, observed, at')
            && observed.ignitionInitialized && observed.previousIgnition == inputs[n].car.ignition
  {
    at' := if tr.ignitionInitialized && inputs[n].car.ignition != tr.previousIgnition then [] else at;
  }

  lemma KeptTraced(inputs: seq<Input>, n: nat, tr: Tracker, at: seq<nat>)
    requires n < |inputs| && Traced(inputs, n, tr, at) && (at != [] ==> Quiet(inputs[n]))
    ensures Traced(inputs, n + 1, tr, at)
  {
  }

  lemma OneMoreTaken(inputs: seq<Input>, n: nat, window: seq<byte>, at: seq<nat>)
    requires n < |inputs| && TakenAt(inputs, n, window, at)
    requires inputs[n].car.enabled && Quiet(inputs[n])
    requires at != [] ==> inputs[n].now >= inputs[at[|at| - 1]].now + 2500
    ensures TakenAt(inputs, n + 1, window + [inputs[n].car.fuelLevel], at + [n])
  {
    hide Quiet;
  }

  lemma OldestDropped(inputs: seq<Input>, n: nat, window: seq<byte>, at: seq<nat>)
    requires n <= |inputs| && TakenAt(inputs, n, window, at) && |at| == 6
    ensures TakenAt(inputs, n, window[1..], at[1..])
  {
    hide Quiet;
    assert at[0] < at[1];
  }

  lemma NotTooSoon(now: nat, last: nat)
    requires 0 < last <= now < CLOCK_MODULUS && !TooSoon(now, last)
    ensures now >= last + 2500
  {
  }

  lemma SampledTraced(inputs: seq<Input>, n: nat, tr: Tracker, at: seq<nat>) returns (at': seq<nat>)
    requires InTime(inputs) && n < |inputs| && Traced(inputs, n, tr, at)
    requires inputs[n].car.enabled && Usable(inputs[n].now, inputs[n].car) && !TooSoon(inputs[n].now, tr.lastSampleTime)
    requires tr.ignitionInitialized && tr.previousIgnition == inputs[n].car.ignition
    ensures Traced(inputs, n + 1, Sampled(tr, inputs[n].now, inputs[n].car), at')
    ensures at' != [] ==> at'[|at'| - 1] == n
  {
    var now, fuel := inputs[n].now, inputs[n].car.fuelLevel;
    at' := at;
    if inputs[n].car.ignition {
      if at != [] {
        assert Quiet(inputs[at[|at| - 1]]);
        NotTooSoon(now, tr.lastSampleTime);
      }
      assert Quiet(inputs[n]);
      hide TakenAt, Quiet, Usable, TooSoon, InTime;
      OneMoreTaken(inputs, n, tr.window, at);
      at' := at + [n];
      if |tr.window| == 5 {
        OldestDropped(inputs, n + 1, tr.window + [fuel], at');
        at' := at'[1..];
      }
    }
  }

  lemma StepTraced(inputs: seq<Input>, n: nat, tr: Tracker, disk: Disk, at: seq<nat>) returns (at': seq<nat>)
    requires InTime(inputs) && n < |inputs| && Traced(inputs, n, tr, at)
    ensures Traced(inputs, n + 1, Step(tr, disk, inputs[n].now, inputs[n].car).0, at')
  {
    hide IsWallClockValid;
    var now, car := inputs[n].now, inputs[n].car;
    if !car.enabled {
      at' := at;
      KeptTraced(inputs, n, tr, at);
    } else if !Usable(now, car) {
      at' := [];
    } else {
      at' := ObservedTraced(inputs, n, tr, at);
      var observed := IgnitionObserved(tr, car.ignition);
      assert at' != [] ==> Quiet(inputs[n]);
      hide Usable, InTime, IgnitionObserved, Evaluated, TooSoon, Sampled;
      if TooSoon(now, observed.lastSampleTime) {
        KeptTraced(inputs, n, observed, at');
      } else {
        at' := SampledTraced(inputs, n, observed, at');
        EvaluatedKeepsSamples(Sampled(observed, now, car), disk, car);
      }
    }
  }

  lemma FreshTraced(loaded: PersistedState, inputs: seq<Input>)
    ensures Traced(inputs, 0, FreshTracker(loaded), [])
  {
  }

  lemma {:induction false} SamplesTraced(loaded: PersistedState, outcomes: seq<bool>, inputs: seq<Input>, n: nat)
    returns (at: seq<nat>)
    requires InTime(inputs) && n <= |inputs|
    ensures Traced(inputs, n, After(loaded, outcomes, inputs, n).0, at)
  {
    hide Step, Traced, InTime, FreshTracker;
    if n == 0 {
      FreshTraced(loaded, inputs);
      at := [];
    } else {
      var before := After(loaded, outcomes, inputs, n - 1);
      var earlier := SamplesTraced(loaded, outcomes, inputs, n - 1);
      at := StepTraced(inputs, n - 1, before.0, before.1, earlier);
    }
  }

  /** The level a call evaluates, if it gets that far and finds the samples stable. */
  function LevelAt(loaded: PersistedState, outcomes: seq<bool>, inputs: seq<Input>, n: nat): Option<byte>
    requires n < |inputs|
  {
    var (tr, _) := After(loaded, outcomes, inputs, n);
    LevelOf(tr, inputs[n].now, inputs[n].car)
  }

  function LevelOf(tr: Tracker, now: nat, car: Car): Option<byte> {
    var observed := IgnitionObserved(tr, car.ignition);
    if car.enabled && Usable(now, car) && !TooSoon(now, observed.lastSampleTime)
    then StableLevel(Sampled(observed, now, car).window) else None
  }

  /** Every stable level is the median of the five samples the tracker holds after
      the call, which lie within 2 percent of it and were taken at least 2500 ms
      apart up to and including this call, in one stretch of calls with usable
      inputs and the ignition on. */
  lemma StableLevelTraced(loaded: PersistedState, outcomes: seq<bool>, inputs: seq<Input>, n: nat)
    returns (window: seq<byte>, at: seq<nat>)
    requires InTime(inputs) && n < |inputs| && LevelAt(loaded, outcomes, inputs, n).Some?
    ensures window == After(loaded, outcomes, inputs, n + 1).0.window
    ensures |window| == 5 && at != [] && TakenAt(inputs, n + 1, window, at) && at[4] == n
    ensures var level := LevelAt(loaded, outcomes, inputs, n).value;
            && level in window && AtMost(window, level) >= 3 && AtLeast(window, level) >= 3
            && forall i | 0 <= i < 5 :: -2 <= (window[i] as int) - level <= 2
  {
    var (tr, disk) := After(loaded, outcomes, inputs, n);
    at := SamplesTraced(loaded, outcomes, inputs, n);
    at := ObservedTraced(inputs, n, tr, at);
    var observed := IgnitionObserved(tr, inputs[n].car.ignition);
    at := SampledTraced(inputs, n, observed, at);
    var sampled := Sampled(observed, inputs[n].now, inputs[n].car);
    window := sampled.window;
    EvaluatedKeepsSamples(sampled, disk, inputs[n].car);
    assert After(loaded, outcomes, inputs, n + 1) == Step(tr, disk, inputs[n].now, inputs[n].car);
    hide StableLevel, Evaluated, After, TakenAt, Usable;
    StableLevelIsMedian(window);
  }

  // ---- Records ----

  /** The startup check is due and comes to this level. */
  predicate StartupRuns(tr: Tracker, now: nat, car: Car) {
    LevelOf(tr, now, car).Some? && car.ignition && !IgnitionObserved(tr, car.ignition).startupComplete
  }

  predicate OffCheckRuns(tr: Tracker, now: nat, car: Car) {
    LevelOf(tr, now, car).Some? && !car.ignition && !IgnitionObserved(tr, car.ignition).offHandled
  }

  lemma RecordsChangeOnlyInChecks(tr: Tracker, disk: Disk, now: nat, car: Car)
    ensures var (tr', disk') := Step(tr, disk, now, car);
            var sampled := Sampled(IgnitionObserved(tr, car.ignition), now, car);
            && (StartupRuns(tr, now, car) ==>
                  var e := Startup(sampled, disk, car, LevelOf(tr, now, car).value);
                  tr'.state == e.tracker.state && tr'.startupComplete == e.ok && disk' == e.disk)
            && (OffCheckRuns(tr, now, car) ==>
                  var (off, d) := IgnitionOff(sampled, disk, car, LevelOf(tr, now, car).value);
                  tr'.state == off.state && disk' == d)
            && (!StartupRuns(tr, now, car) && !OffCheckRuns(tr, now, car) ==> tr'.state == tr.state && disk' == disk)
  {
    hide StableLevel, Startup, IgnitionOff, IsWallClockValid;
  }

  /** Memory is what was saved last, or what was loaded if nothing has been saved. */
  predicate InSync(loaded: PersistedState, state: PersistedState, disk: Disk) {
    state == if disk.saves == [] then loaded else disk.saves[|disk.saves| - 1]
  }

  lemma SavingKeepsSync(loaded: PersistedState, tr: Tracker, disk: Disk, car: Car, fuel: byte, before: byte)
    requires InSync(loaded, tr.state, disk)
    ensures var e := SavingCheckpoint(tr, disk, car, fuel); InSync(loaded, e.tracker.state, e.disk)
    ensures var e := AppendingRefill(tr, disk, car, before, fuel); InSync(loaded, e.tracker.state, e.disk)
  {
    hide WithCheckpoint, IsWallClockValid, IsDuplicate, Push;
  }

  lemma ChecksKeepSync(loaded: PersistedState, tr: Tracker, disk: Disk, car: Car, fuel: byte)
    requires InSync(loaded, tr.state, disk)
    ensures InSync(loaded, Startup(tr, disk, car, fuel).tracker.state, Startup(tr, disk, car, fuel).disk)
    ensures InSync(loaded, IgnitionOff(tr, disk, car, fuel).0.state, IgnitionOff(tr, disk, car, fuel).1)
  {
    var before := if tr.state.checkpoint.Some? then tr.state.checkpoint.value.fuelPercent else 0;
    hide InSync, SavingCheckpoint, AppendingRefill, IsRefill, IsDecrease;
    SavingKeepsSync(loaded, tr, disk, car, fuel, before);
    var appended := AppendingRefill(tr, disk, car, before, fuel);
    SavingKeepsSync(loaded, appended.tracker, appended.disk, car, fuel, before);
  }

  /** Under any pattern of save failures memory equals the last successful save. */
  lemma {:induction false} MemoryIsLastSave(loaded: PersistedState, outcomes: seq<bool>, inputs: seq<Input>, n: nat)
    requires n <= |inputs|
    ensures var (tr, disk) := After(loaded, outcomes, inputs, n); InSync(loaded, tr.state, disk)
  {
    if n > 0 {
      hide Step, LevelOf, Startup, IgnitionOff, InSync, Sampled, IgnitionObserved, StartupRuns, OffCheckRuns;
      MemoryIsLastSave(loaded, outcomes, inputs, n - 1);
      var (tr, disk) := After(loaded, outcomes, inputs, n - 1);
      var now, car := inputs[n - 1].now, inputs[n - 1].car;
      SyncStep(loaded, tr, disk, now, car);
    }
  }

  lemma SyncStep(loaded: PersistedState, tr: Tracker, disk: Disk, now: nat, car: Car)
    requires InSync(loaded, tr.state, disk)
    ensures var (tr', disk') := Step(tr, disk, now, car); InSync(loaded, tr'.state, disk')
  {
    RecordsChangeOnlyInChecks(tr, disk, now, car);
    var sampled := Sampled(IgnitionObserved(tr, car.ignition), now, car);
    assert sampled.state == tr.state;
    var level := LevelOf(tr, now, car);
    hide Step, LevelOf, Startup, IgnitionOff, InSync, Sampled, IgnitionObserved;
    if level.Some? {
      ChecksKeepSync(loaded, sampled, disk, car, level.value);
    }
  }

  // ---- Refills ----

  /** How the k-th of the next attempts to save ends. */
  predicate Succeeds(disk: Disk, k: nat) { |disk.outcomes| <= k || disk.outcomes[k] }

  /** The latest refill on record has these levels, and the odometer is within 10 of it. */
  predicate OnRecord(refills: seq<Refill>, before: byte, after: byte, odometer: nat) {
    && refills != []
    && var last := refills[|refills| - 1];
       && last.beforePercent == before && last.afterPercent == after
       && last.odometer <= odometer + 10 && odometer <= last.odometer + 10
  }

  lemma DuplicateIsOnRecord(refills: seq<Refill>, before: byte, after: byte, odometer: nat)
    ensures IsDuplicate(refills, before, after, odometer) <==> OnRecord(refills, before, after, odometer)
  {
  }

  /** The startup check finds a rise of 8 percent or more over the checkpoint that is
      not on record, and manages to save it. */
  predicate AddsRefill(state: PersistedState, disk: Disk, car: Car, fuel: byte) {
    && state.checkpoint.Some? && fuel >= state.checkpoint.value.fuelPercent + 8
    && !OnRecord(state.refills, state.checkpoint.value.fuelPercent, fuel, car.odometer)
    && IsWallClockValid(car.clock) && Succeeds(disk, 0)
  }

  function NewRefill(state: PersistedState, car: Car, fuel: byte): Refill
    requires state.checkpoint.Some?
  {
    Refill(car.clock, car.odometer, state.checkpoint.value.fuelPercent, fuel)
  }

  lemma ChecksOnRefills(tr: Tracker, disk: Disk, car: Car, fuel: byte)
    ensures Startup(tr, disk, car, fuel).tracker.state.refills ==
              if AddsRefill(tr.state, disk, car, fuel) then Push(tr.state.refills, NewRefill(tr.state, car, fuel))
              else tr.state.refills
    ensures IgnitionOff(tr, disk, car, fuel).0.state.refills == tr.state.refills
  {
    var before := if tr.state.checkpoint.Some? then tr.state.checkpoint.value.fuelPercent else 0;
    DuplicateIsOnRecord(tr.state.refills, before, fuel, car.odometer);
    hide IsWallClockValid, IsDuplicate, OnRecord, Push;
  }

  function RefillAdded(tr: Tracker, disk: Disk, now: nat, car: Car): Option<Refill> {
    if StartupRuns(tr, now, car) && AddsRefill(tr.state, disk, car, LevelOf(tr, now, car).value)
    then Some(NewRefill(tr.state, car, LevelOf(tr, now, car).value)) else None
  }

  lemma RefillsStep(tr: Tracker, disk: Disk, now: nat, car: Car)
    ensures Step(tr, disk, now, car).0.state.refills ==
              if RefillAdded(tr, disk, now, car).Some?
              then Push(tr.state.refills, RefillAdded(tr, disk, now, car).value)
              else tr.state.refills
    ensures RefillAdded(tr, disk, now, car).Some? ==>
              var r := RefillAdded(tr, disk, now, car).value;
              r.afterPercent >= r.beforePercent + 8
  {
    RecordsChangeOnlyInChecks(tr, disk, now, car);
    var sampled := Sampled(IgnitionObserved(tr, car.ignition), now, car);
    assert sampled.state == tr.state;
    var level := LevelOf(tr, now, car);
    hide Step, LevelOf, Startup, IgnitionOff, Sampled, IgnitionObserved, IsDuplicate, Push;
    if level.Some? {
      ChecksOnRefills(sampled, disk, car, level.value);
    }
  }

  function RefillAt(loaded: PersistedState, outcomes: seq<bool>, inputs: seq<Input>, n: nat): Option<Refill>
    requires n < |inputs|
  {
    var (tr, disk) := After(loaded, outcomes, inputs, n);
    RefillAdded(tr, disk, inputs[n].now, inputs[n].car)
  }

  /** Every refill accepted during the first n calls. */
  function Accepted(loaded: PersistedState, outcomes: seq<bool>, inputs: seq<Input>, n: nat): seq<Refill>
    requires n <= |inputs|
  {
    if n == 0 then [] else
    var before := Accepted(loaded, outcomes, inputs, n - 1);
    var r := RefillAt(loaded, outcomes, inputs, n - 1);
    if r.Some? then before + [r.value] else before
  }

  lemma PushKeepsLastFive<T>(all: seq<T>, r: T)
    ensures Push(LastFive(all), r) == LastFive(all + [r])
  {
  }

  /** The refill history is the last five of everything loaded and accepted, and
      every accepted refill is a rise of 8 percent or more. */
  lemma {:induction false} RefillsAreLastFive(loaded: PersistedState, outcomes: seq<bool>, inputs: seq<Input>, n: nat)
    requires n <= |inputs| && |loaded.refills| <= 5
    ensures After(loaded, outcomes, inputs, n).0.state.refills
         == LastFive(loaded.refills + Accepted(loaded, outcomes, inputs, n))
    ensures forall r | r in Accepted(loaded, outcomes, inputs, n) ::
              r.afterPercent >= r.beforePercent + 8
  {
    hide Step, RefillAdded, Push, LastFive;
    if n == 0 {
      NothingAccepted(loaded.refills);
    } else {
      RefillsAreLastFive(loaded, outcomes, inputs, n - 1);
      var (tr, disk) := After(loaded, outcomes, inputs, n - 1);
      RefillsStep(tr, disk, inputs[n - 1].now, inputs[n - 1].car);
      var before, r := Accepted(loaded, outcomes, inputs, n - 1), RefillAt(loaded, outcomes, inputs, n - 1);
      if r.Some? {
        PushKeepsLastFive(loaded.refills + before, r.value);
        assert loaded.refills + before + [r.value] == loaded.refills + (before + [r.value]);
      }
    }
  }

  lemma NothingAccepted(loaded: seq<Refill>)
    requires |loaded| <= 5
    ensures LastFive(loaded + []) == loaded
  {
    assert loaded + [] == loaded;
  }

  /** A refill that is saved is the latest on record; if its checkpoint is not, the
      earlier checkpoint stays. */
  lemma RefillWithoutCheckpoint(tr: Tracker, disk: Disk, car: Car, fuel: byte)
    requires AddsRefill(tr.state, disk, car, fuel) && !Startup(tr, disk, car, fuel).ok
    ensures var state, refills := Startup(tr, disk, car, fuel).tracker.state, tr.state.refills;
            && state.checkpoint == tr.state.checkpoint
            && state.refills == Push(refills, NewRefill(tr.state, car, fuel))
  {
    DuplicateIsOnRecord(tr.state.refills, tr.state.checkpoint.value.fuelPercent, fuel, car.odometer);
    hide IsWallClockValid, Push, IsDuplicate, OnRecord, WithCheckpoint;
  }

  /** After a refill was saved but its checkpoint was not, a second try, at whatever
      stable level, records a refill again exactly when that level is a refill too
      and either differs from the first one or the car has moved on by more than 10:
      one percent of difference is enough for the same refill to count twice. */
  lemma RetryAddsAgainIff(tr: Tracker, disk: Disk, car: Car, fuel: byte, later: Car, laterDisk: Disk, fuel2: byte)
    requires AddsRefill(tr.state, disk, car, fuel) && !Startup(tr, disk, car, fuel).ok
    requires IsWallClockValid(later.clock) && laterDisk.Accepts()
    ensures AddsRefill(Startup(tr, disk, car, fuel).tracker.state, laterDisk, later, fuel2)
            <==> && fuel2 >= tr.state.checkpoint.value.fuelPercent + 8
                 && (fuel2 != fuel || Distance(car.odometer, later.odometer) > 10)
  {
    hide Startup, IsWallClockValid;
    RefillWithoutCheckpoint(tr, disk, car, fuel);
  }

  // ---- Checkpoints ----

  /** Once the startup check is complete, the checkpoint is at most 1 percent above
      the stable level and less than 8 percent below it; a check that is not
      complete has left the checkpoint alone. */
  lemma CompleteMeansNear(tr: Tracker, disk: Disk, car: Car, fuel: byte)
    ensures var e := Startup(tr, disk, car, fuel);
            && (e.ok ==> e.tracker.state.checkpoint.Some?
                         && e.tracker.state.checkpoint.value.fuelPercent < fuel + 2
                         && fuel < e.tracker.state.checkpoint.value.fuelPercent + 8)
            && (!e.ok ==> e.tracker.state.checkpoint == tr.state.checkpoint)
  {
    hide IsWallClockValid, IsDuplicate, Push;
  }

  // ---- All checkpoints ----

  /** The startup check gets as far as saving a checkpoint, and manages to. */
  predicate AddsCheckpoint(state: PersistedState, disk: Disk, car: Car, fuel: byte) {
    && IsWallClockValid(car.clock) && Succeeds(disk, 0)
    && if state.checkpoint.None? then true
       else if fuel >= state.checkpoint.value.fuelPercent + 8 then
         OnRecord(state.refills, state.checkpoint.value.fuelPercent, fuel, car.odometer) || Succeeds(disk, 1)
       else state.checkpoint.value.fuelPercent >= fuel + 2
  }

  predicate OffAddsCheckpoint(state: PersistedState, disk: Disk, car: Car, fuel: byte) {
    && state.checkpoint.Some? && state.checkpoint.value.fuelPercent >= fuel + 2
    && IsWallClockValid(car.clock) && Succeeds(disk, 0)
  }

  function CheckpointAdded(tr: Tracker, disk: Disk, now: nat, car: Car): Option<Checkpoint> {
    var level := LevelOf(tr, now, car);
    if (StartupRuns(tr, now, car) && AddsCheckpoint(tr.state, disk, car, level.value))
       || (OffCheckRuns(tr, now, car) && OffAddsCheckpoint(tr.state, disk, car, level.value))
    then Some(Checkpoint(car.clock, car.odometer, level.value)) else None
  }

  /** A record with the odometer and level of the latest one. */
  predicate Repeats(records: seq<Checkpoint>, c: Checkpoint) {
    && records != []
    && records[|records| - 1].odometer == c.odometer && records[|records| - 1].fuelPercent == c.fuelPercent
  }

  /** Those of the new records that are no repetition of the record before them. */
  function Changes(earlier: seq<Checkpoint>, records: seq<Checkpoint>): seq<Checkpoint>
    decreases |records|
  {
    if records == [] then [] else
    var front, last := records[..|records| - 1], records[|records| - 1];
    Changes(earlier, front) + if Repeats(earlier + front, last) then [] else [last]
  }

  function Recorded(history: seq<Checkpoint>, c: Checkpoint): seq<Checkpoint> {
    if Repeats(history, c) then history else Push(history, c)
  }

  lemma SavingRecords(tr: Tracker, disk: Disk, car: Car, fuel: byte)
    ensures var e, c := SavingCheckpoint(tr, disk, car, fuel), Checkpoint(car.clock, car.odometer, fuel);
            if IsWallClockValid(car.clock) && Succeeds(disk, 0)
            then e.tracker.state.checkpoint == Some(c)
                 && e.tracker.state.checkpoints == Recorded(tr.state.checkpoints, c)
            else e.tracker == tr
  {
    hide IsWallClockValid, Push;
  }

  lemma AppendingLeavesCheckpoints(tr: Tracker, disk: Disk, car: Car, before: byte, fuel: byte)
    ensures var e := AppendingRefill(tr, disk, car, before, fuel);
            && e.tracker.state.checkpoint == tr.state.checkpoint
            && e.tracker.state.checkpoints == tr.state.checkpoints
            && (OnRecord(tr.state.refills, before, fuel, car.odometer) ==> e.ok && e.disk == disk)
            && (!OnRecord(tr.state.refills, before, fuel, car.odometer) ==>
                  && e.ok == (IsWallClockValid(car.clock) && Succeeds(disk, 0))
                  && (e.ok ==> (Succeeds(e.disk, 0) <==> Succeeds(disk, 1))))
  {
    DuplicateIsOnRecord(tr.state.refills, before, fuel, car.odometer);
    hide IsWallClockValid, Push, IsDuplicate, OnRecord;
  }

  lemma ChecksOnCheckpoints(tr: Tracker, disk: Disk, car: Car, fuel: byte)
    ensures var state, c := Startup(tr, disk, car, fuel).tracker.state, Checkpoint(car.clock, car.odometer, fuel);
            if AddsCheckpoint(tr.state, disk, car, fuel)
            then state.checkpoint == Some(c) && state.checkpoints == Recorded(tr.state.checkpoints, c)
            else state.checkpoint == tr.state.checkpoint && state.checkpoints == tr.state.checkpoints
    ensures var state, c := IgnitionOff(tr, disk, car, fuel).0.state, Checkpoint(car.clock, car.odometer, fuel);
            if OffAddsCheckpoint(tr.state, disk, car, fuel)
            then state.checkpoint == Some(c) && state.checkpoints == Recorded(tr.state.checkpoints, c)
            else state == tr.state
  {
    hide IsWallClockValid, IsDuplicate, OnRecord, Recorded, SavingCheckpoint, AppendingRefill, Succeeds;
    var before := if tr.state.checkpoint.Some? then tr.state.checkpoint.value.fuelPercent else 0;
    SavingRecords(tr, disk, car, fuel);
    AppendingLeavesCheckpoints(tr, disk, car, before, fuel);
    var appended := AppendingRefill(tr, disk, car, before, fuel);
    SavingRecords(appended.tracker, appended.disk, car, fuel);
  }

  lemma CheckpointsStep(tr: Tracker, disk: Disk, now: nat, car: Car)
    ensures var state, c := Step(tr, disk, now, car).0.state, CheckpointAdded(tr, disk, now, car);
            && state.checkpoint == (if c.Some? then c else tr.state.checkpoint)
            && state.checkpoints == if c.Some? then Recorded(tr.state.checkpoints, c.value) else tr.state.checkpoints
  {
    RecordsChangeOnlyInChecks(tr, disk, now, car);
    var sampled := Sampled(IgnitionObserved(tr, car.ignition), now, car);
    assert sampled.state == tr.state;
    var level := LevelOf(tr, now, car);
    hide Step, LevelOf, Startup, IgnitionOff, Sampled, IgnitionObserved, AddsCheckpoint, OffAddsCheckpoint, Recorded;
    if level.Some? {
      ChecksOnCheckpoints(sampled, disk, car, level.value);
    }
  }

  function CheckpointAt(loaded: PersistedState, outcomes: seq<bool>, inputs: seq<Input>, n: nat): Option<Checkpoint>
    requires n < |inputs|
  {
    var (tr, disk) := After(loaded, outcomes, inputs, n);
    CheckpointAdded(tr, disk, inputs[n].now, inputs[n].car)
  }

  /** Every checkpoint accepted during the first n calls. */
  function Checkpoints(loaded: PersistedState, outcomes: seq<bool>, inputs: seq<Input>, n: nat): seq<Checkpoint>
    requires n <= |inputs|
  {
    if n == 0 then [] else
    var before := Checkpoints(loaded, outcomes, inputs, n - 1);
    var c := CheckpointAt(loaded, outcomes, inputs, n - 1);
    if c.Some? then before + [c.value] else before
  }

  /** Leaving out repetitions does not change what the next record repeats. */
  lemma {:induction false} ChangesEndAlike(earlier: seq<Checkpoint>, records: seq<Checkpoint>, c: Checkpoint)
    ensures Repeats(earlier + Changes(earlier, records), c) <==> Repeats(earlier + records, c)
    decreases |records|
  {
    if records != [] {
      var front, last := records[..|records| - 1], records[|records| - 1];
      ChangesEndAlike(earlier, front, c);
      assert earlier + records == (earlier + front) + [last];
      if Repeats(earlier + front, last) {
        assert Changes(earlier, records) == Changes(earlier, front);
      } else {
        assert earlier + Changes(earlier, records) == earlier + Changes(earlier, front) + [last];
      }
    }
  }

  lemma ChangesOneMore(earlier: seq<Checkpoint>, records: seq<Checkpoint>, c: Checkpoint)
    ensures earlier + Changes(earlier, records + [c])
         == if Repeats(earlier + records, c) then earlier + Changes(earlier, records)
            else earlier + Changes(earlier, records) + [c]
  {
    assert (records + [c])[..|records|] == records;
    assert Changes(earlier, records) + [] == Changes(earlier, records);
    hide Repeats;
  }

  lemma RecordedKeepsLastFive(all: seq<Checkpoint>, c: Checkpoint)
    ensures Recorded(LastFive(all), c) == LastFive(if Repeats(all, c) then all else all + [c])
  {
  }

  /** The checkpoint history is the last five of everything loaded and accepted, a
      record with the odometer and level of the one before it left out, and the
      checkpoint is the latest one accepted. */
  lemma {:induction false} CheckpointsAreLastFive(loaded: PersistedState, outcomes: seq<bool>, inputs: seq<Input>,
                                                  n: nat)
    requires n <= |inputs| && |loaded.checkpoints| <= 5
    ensures var state, all := After(loaded, outcomes, inputs, n).0.state, Checkpoints(loaded, outcomes, inputs, n);
            && state.checkpoints == LastFive(loaded.checkpoints + Changes(loaded.checkpoints, all))
            && state.checkpoint == if all == [] then loaded.checkpoint else Some(all[|all| - 1])
  {
    hide Step, CheckpointAdded, Push, LastFive, Changes, Recorded, Repeats;
    if n == 0 {
      NoCheckpointYet(loaded.checkpoints);
    } else {
      CheckpointsAreLastFive(loaded, outcomes, inputs, n - 1);
      var (tr, disk) := After(loaded, outcomes, inputs, n - 1);
      CheckpointsStep(tr, disk, inputs[n - 1].now, inputs[n - 1].car);
      var before, c := Checkpoints(loaded, outcomes, inputs, n - 1), CheckpointAt(loaded, outcomes, inputs, n - 1);
      if c.Some? {
        var all := loaded.checkpoints + Changes(loaded.checkpoints, before);
        RecordedKeepsLastFive(all, c.value);
        ChangesEndAlike(loaded.checkpoints, before, c.value);
        ChangesOneMore(loaded.checkpoints, before, c.value);
      }
    }
  }

  lemma NoCheckpointYet(loaded: seq<Checkpoint>)
    requires |loaded| <= 5
    ensures LastFive(loaded + Changes(loaded, [])) == loaded
  {
    assert loaded + [] == loaded;
  }

  /** The checkpoint history ends with the level and odometer of the checkpoint, and holds five entries at most. */
  predicate EndsWithCheckpoint(p: PersistedState) {
    && |p.checkpoints| <= 5
    && (p.checkpoint.Some? ==>
          && p.checkpoints != []
          && var last := p.checkpoints[|p.checkpoints| - 1];
             last.odometer == p.checkpoint.value.odometer && last.fuelPercent == p.checkpoint.value.fuelPercent)
  }

  /** The checkpoint ends its history from the first accepted checkpoint on, and
      before that exactly if it was loaded so: loading reads the two separately. */
  lemma CheckpointHistoryKept(loaded: PersistedState, outcomes: seq<bool>, inputs: seq<Input>, n: nat)
    requires n <= |inputs| && |loaded.checkpoints| <= 5
    ensures EndsWithCheckpoint(After(loaded, outcomes, inputs, n).0.state)
            <==> EndsWithCheckpoint(loaded) || Checkpoints(loaded, outcomes, inputs, n) != []
  {
    hide After, Checkpoints, Changes;
    CheckpointsAreLastFive(loaded, outcomes, inputs, n);
    var all := Checkpoints(loaded, outcomes, inputs, n);
    if all == [] {
      NoCheckpointYet(loaded.checkpoints);
    } else {
      ChangesEndAlike(loaded.checkpoints, all, all[|all| - 1]);
    }
  }

  // ---- One refill per ignition session ----

  /** The call observes the ignition being switched on. */
  predicate SwitchedOn(loaded: PersistedState, outcomes: seq<bool>, inputs: seq<Input>, n: nat)
    requires n < |inputs|
  {
    var tr, i := After(loaded, outcomes, inputs, n).0, inputs[n];
    i.car.enabled && Usable(i.now, i.car) && i.car.ignition && tr.ignitionInitialized && !tr.previousIgnition
  }

  lemma CompleteUntilSwitchedOn(tr: Tracker, disk: Disk, now: nat, car: Car)
    requires tr.startupComplete && tr.ignitionInitialized
    requires !(car.enabled && Usable(now, car) && car.ignition && !tr.previousIgnition)
    ensures RefillAdded(tr, disk, now, car).None?
    ensures Step(tr, disk, now, car).0.startupComplete && Step(tr, disk, now, car).0.ignitionInitialized
  {
    hide StableLevel, AddsRefill, IgnitionOff, IsWallClockValid;
    var observed := IgnitionObserved(tr, car.ignition);
    var sampled := Sampled(observed, now, car);
    if StableLevel(sampled.window).Some? {
      OffKeepsFlags(sampled, disk, car, StableLevel(sampled.window).value);
    }
  }

  lemma OffKeepsFlags(tr: Tracker, disk: Disk, car: Car, fuel: byte)
    ensures var off := IgnitionOff(tr, disk, car, fuel).0; off == tr.(state := off.state)
  {
    hide IsWallClockValid, WithCheckpoint, IsDecrease;
  }

  lemma AddingCompletes(tr: Tracker, disk: Disk, now: nat, car: Car)
    requires RefillAdded(tr, disk, now, car).Some? && disk.outcomes == []
    ensures Step(tr, disk, now, car).0.startupComplete && Step(tr, disk, now, car).0.ignitionInitialized
  {
    hide StableLevel, IsWallClockValid, WithCheckpoint, Push;
  }

  lemma {:induction false} SavesKeepSucceeding(loaded: PersistedState, inputs: seq<Input>, n: nat)
    requires n <= |inputs|
    ensures After(loaded, [], inputs, n).1.outcomes == []
  {
    if n > 0 {
      SavesKeepSucceeding(loaded, inputs, n - 1);
      var (tr, disk) := After(loaded, [], inputs, n - 1);
      OutcomesStayEmpty(tr, disk, inputs[n - 1].now, inputs[n - 1].car);
      hide Step;
    }
  }

  lemma OutcomesStayEmpty(tr: Tracker, disk: Disk, now: nat, car: Car)
    requires disk.outcomes == []
    ensures Step(tr, disk, now, car).1.outcomes == []
  {
    RecordsChangeOnlyInChecks(tr, disk, now, car);
    hide Step, LevelOf, IsWallClockValid, WithCheckpoint, Push, IsDuplicate;
  }

  lemma {:induction false} CompleteBetween(loaded: PersistedState, inputs: seq<Input>, i: nat, j: nat)
    requires i < j < |inputs| && RefillAt(loaded, [], inputs, i).Some?
    requires forall k | i < k < j :: !SwitchedOn(loaded, [], inputs, k)
    ensures var tr := After(loaded, [], inputs, j).0; tr.startupComplete && tr.ignitionInitialized
  {
    hide Step, RefillAdded, Usable;
    var (tr, disk) := After(loaded, [], inputs, j - 1);
    if j == i + 1 {
      SavesKeepSucceeding(loaded, inputs, i);
      AddingCompletes(tr, disk, inputs[i].now, inputs[i].car);
    } else {
      CompleteBetween(loaded, inputs, i, j - 1);
      assert !SwitchedOn(loaded, [], inputs, j - 1);
      CompleteUntilSwitchedOn(tr, disk, inputs[j - 1].now, inputs[j - 1].car);
    }
  }

  /** When saves succeed, between any two recorded refills the ignition was seen
      being switched on: each session adds at most one. */
  lemma OneRefillPerSession(loaded: PersistedState, inputs: seq<Input>, i: nat, j: nat)
    requires i < j < |inputs|
    requires RefillAt(loaded, [], inputs, i).Some? && RefillAt(loaded, [], inputs, j).Some?
    ensures exists k :: i < k <= j && SwitchedOn(loaded, [], inputs, k)
  {
    if forall k | i < k <= j :: !SwitchedOn(loaded, [], inputs, k) {
      CompleteBetween(loaded, inputs, i, j);
      assert !SwitchedOn(loaded, [], inputs, j);
      var (tr, disk) := After(loaded, [], inputs, j);
      CompleteUntilSwitchedOn(tr, disk, inputs[j].now, inputs[j].car);
    }
  }

  predicate SampledOnlyWhenOn(tr: Tracker) {
    tr.window != [] ==> tr.ignitionInitialized && tr.previousIgnition
  }

  lemma StepSampledWhenOn(tr: Tracker, disk: Disk, now: nat, car: Car)
    requires SampledOnlyWhenOn(tr)
    ensures SampledOnlyWhenOn(Step(tr, disk, now, car).0)
  {
    EvaluatedKeepsSamples(Sampled(IgnitionObserved(tr, car.ignition), now, car), disk, car);
    hide Evaluated, Usable, TooSoon;
  }

  lemma {:induction false} AlwaysSampledWhenOn(loaded: PersistedState, outcomes: seq<bool>, inputs: seq<Input>, n: nat)
    requires n <= |inputs|
    ensures SampledOnlyWhenOn(After(loaded, outcomes, inputs, n).0)
  {
    hide Step;
    if n > 0 {
      AlwaysSampledWhenOn(loaded, outcomes, inputs, n - 1);
      var (tr, disk) := After(loaded, outcomes, inputs, n - 1);
      StepSampledWhenOn(tr, disk, inputs[n - 1].now, inputs[n - 1].car);
    }
  }

  /** The check meant for the ignition going off never runs: no samples are taken
      with the ignition off, so there is no stable level then. */
  lemma OffCheckNeverRuns(loaded: PersistedState, outcomes: seq<bool>, inputs: seq<Input>, n: nat)
    requires n < |inputs|
    ensures !OffCheckRuns(After(loaded, outcomes, inputs, n).0, inputs[n].now, inputs[n].car)
  {
    AlwaysSampledWhenOn(loaded, outcomes, inputs, n);
    hide IsWallClockValid;
  }
}
