/** The fuel refill tracker: fuel samples in a ring buffer, a stable level from
    their median, and records that only change when they have been saved. */
module FuelRefill {
  import opened Bytes
  import opened Wrappers

  const HISTORY_CAPACITY := 5
  const SAMPLE_COUNT := 5
  const SAMPLE_INTERVAL_MS := 2500
  const INPUT_TIMEOUT_MS := 5000
  const MAXIMUM_STABLE_SPREAD_PERCENT := 2
  const REFILL_INCREASE_PERCENT := 8
  const CHECKPOINT_DECREASE_PERCENT := 2
  const DUPLICATE_ODOMETER_RANGE := 10
  const CLOCK_MODULUS := 0x1_0000_0000_0000_0000

  datatype WallClock = WallClock(year: nat, month: nat, day: nat, hour: nat, minute: nat, second: nat)

  /** The part of the car state the tracker reads. */
  datatype Car = Car(enabled: bool, clock: WallClock, fuelLevel: byte, ignition: bool, odometer: nat)

  datatype Checkpoint = Checkpoint(timestamp: WallClock, odometer: nat, fuelPercent: byte)

  datatype Refill = Refill(timestamp: WallClock, odometer: nat, beforePercent: byte, afterPercent: byte)

  datatype PersistedState =
    PersistedState(checkpoint: Option<Checkpoint>, checkpoints: seq<Checkpoint>, refills: seq<Refill>)

  /** What has been saved so far, and how the next attempts end: written and
      renamed, or failed before the state file is replaced. Once the outcomes are
      used up every attempt succeeds. */
  datatype Disk = Disk(saves: seq<PersistedState>, outcomes: seq<bool>) {
    predicate Accepts() { outcomes == [] || outcomes[0] }

    function Save(p: PersistedState): Disk {
      Disk(if Accepts() then saves + [p] else saves, if outcomes == [] then [] else outcomes[1..])
    }
  }

  /** `window` is the content of the sample buffer, oldest first. */
  datatype Tracker = Tracker(window: seq<byte>, lastSampleTime: nat, startupComplete: bool, previousIgnition: bool,
                             ignitionInitialized: bool, offHandled: bool, state: PersistedState)

  datatype Effect = Effect(tracker: Tracker, disk: Disk, ok: bool)

  predicate IsWallClockValid(c: WallClock) {
    && 2020 <= c.year <= 2099 && 1 <= c.month <= 12 && 1 <= c.day <= 31
    && c.hour <= 23 && c.minute <= 59 && c.second <= 59
  }

  predicate Usable(now: nat, car: Car) {
    IsWallClockValid(car.clock) && car.fuelLevel <= 100 && now > INPUT_TIMEOUT_MS
  }

  predicate TooSoon(now: nat, last: nat) {
    last != 0 && (now - last) % CLOCK_MODULUS < SAMPLE_INTERVAL_MS
  }

  function LastFive<T>(s: seq<T>): seq<T> {
    if |s| <= 5 then s else s[|s| - 5..]
  }

  /** The content of a ring buffer, oldest first. */
  function Ring(a: seq<byte>, index: nat, size: nat): (r: seq<byte>)
    requires |a| == SAMPLE_COUNT && index < SAMPLE_COUNT && size <= SAMPLE_COUNT
    ensures |r| == size
  {
    if size < SAMPLE_COUNT then a[..size] else a[index..] + a[..index]
  }

  lemma RingFill(a: seq<byte>, index: nat, x: byte)
    requires |a| == SAMPLE_COUNT && index < SAMPLE_COUNT
    ensures Ring(a[index := x], (index + 1) % SAMPLE_COUNT, index + 1) == a[..index] + [x]
  {
    var b := a[index := x];
    assert b[..index + 1] == a[..index] + [x];
    if index + 1 == SAMPLE_COUNT {
      assert b[0..] + b[..0] == b[..5];
    }
  }

  lemma RingWrap(a: seq<byte>, index: nat, x: byte)
    requires |a| == SAMPLE_COUNT && index < SAMPLE_COUNT
    ensures Ring(a[index := x], (index + 1) % SAMPLE_COUNT, SAMPLE_COUNT) == a[index + 1..] + a[..index] + [x]
  {
    var b := a[index := x];
    if index + 1 == SAMPLE_COUNT {
      assert b[0..] + b[..0] == a[5..] + a[..4] + [x];
    } else {
      assert b[..index + 1] == a[..index] + [x] && b[index + 1..] == a[index + 1..];
    }
  }

  lemma DropOldest(a: seq<byte>, index: nat, x: byte)
    requires |a| == SAMPLE_COUNT && index < SAMPLE_COUNT
    ensures LastFive(a[index..] + a[..index] + [x]) == a[index + 1..] + a[..index] + [x]
  {
  }

  lemma RingAdd(a: seq<byte>, index: nat, size: nat, x: byte)
    requires |a| == SAMPLE_COUNT && index < SAMPLE_COUNT && size <= SAMPLE_COUNT
    requires size < SAMPLE_COUNT ==> index == size
    ensures Ring(a[index := x], (index + 1) % SAMPLE_COUNT, if size < SAMPLE_COUNT then size + 1 else size)
         == LastFive(Ring(a, index, size) + [x])
  {
    if size < SAMPLE_COUNT {
      RingFill(a, index, x);
    } else {
      RingWrap(a, index, x);
      DropOldest(a, index, x);
    }
  }

  // ---- Sorting and the stable level ----

  function Insert(x: byte, s: seq<byte>): (r: seq<byte>)
    ensures |r| == |s| + 1
  {
    if s == [] || x <= s[0] then [x] + s else [s[0]] + Insert(x, s[1..])
  }

  function Sort(s: seq<byte>): (r: seq<byte>)
    ensures |r| == |s|
  {
    if s == [] then [] else Insert(s[0], Sort(s[1..]))
  }

  function StableLevel(window: seq<byte>): Option<byte> {
    if |window| < SAMPLE_COUNT then None else
    var sorted := Sort(window);
    if sorted[|window| - 1] - sorted[0] > MAXIMUM_STABLE_SPREAD_PERCENT then None else Some(sorted[|window| / 2])
  }

  // ---- Records ----

  function Push<T>(history: seq<T>, record: T): (r: seq<T>)
    ensures |history| <= HISTORY_CAPACITY ==> |r| <= HISTORY_CAPACITY
  {
    (if |history| == HISTORY_CAPACITY then history[1..] else history) + [record]
  }

  function WithCheckpoint(p: PersistedState, c: Checkpoint): PersistedState {
    var last := |p.checkpoints| - 1;
    var duplicate := p.checkpoints != [] && p.checkpoints[last].odometer == c.odometer
                     && p.checkpoints[last].fuelPercent == c.fuelPercent;
    p.(checkpoint := Some(c), checkpoints := if duplicate then p.checkpoints else Push(p.checkpoints, c))
  }

  /** Memory follows the disk: the new state counts only once it is saved. */
  function Saving(tr: Tracker, disk: Disk, updated: PersistedState): Effect {
    Effect(if disk.Accepts() then tr.(state := updated) else tr, disk.Save(updated), disk.Accepts())
  }

  function SavingCheckpoint(tr: Tracker, disk: Disk, car: Car, fuel: byte): Effect {
    if !IsWallClockValid(car.clock) then Effect(tr, disk, false)
    else Saving(tr, disk, WithCheckpoint(tr.state, Checkpoint(car.clock, car.odometer, fuel)))
  }

  function Distance(x: nat, y: nat): nat {
    if x > y then x - y else y - x
  }

  predicate IsDuplicate(refills: seq<Refill>, before: byte, after: byte, odometer: nat) {
    && refills != []
    && var last := refills[|refills| - 1];
       last.beforePercent == before && last.afterPercent == after
       && Distance(last.odometer, odometer) <= DUPLICATE_ODOMETER_RANGE
  }

  function AppendingRefill(tr: Tracker, disk: Disk, car: Car, before: byte, after: byte): Effect {
    if IsDuplicate(tr.state.refills, before, after, car.odometer) then Effect(tr, disk, true)
    else if !IsWallClockValid(car.clock) then Effect(tr, disk, false)
    else Saving(tr, disk, tr.state.(refills := Push(tr.state.refills, Refill(car.clock, car.odometer, before, after))))
  }

  predicate IsRefill(checkpoint: Checkpoint, fuel: byte) {
    fuel >= checkpoint.fuelPercent + REFILL_INCREASE_PERCENT
  }

  predicate IsDecrease(checkpoint: Checkpoint, fuel: byte) {
    checkpoint.fuelPercent >= fuel + CHECKPOINT_DECREASE_PERCENT
  }

  /** The startup check; `ok` says whether it is complete. */
  function Startup(tr: Tracker, disk: Disk, car: Car, fuel: byte): Effect {
    if tr.state.checkpoint.None? then SavingCheckpoint(tr, disk, car, fuel)
    else if IsRefill(tr.state.checkpoint.value, fuel) then
      var appended := AppendingRefill(tr, disk, car, tr.state.checkpoint.value.fuelPercent, fuel);
      if appended.ok then SavingCheckpoint(appended.tracker, appended.disk, car, fuel) else appended
    else if IsDecrease(tr.state.checkpoint.value, fuel) then SavingCheckpoint(tr, disk, car, fuel)
    else Effect(tr, disk, true)
  }

  function IgnitionOff(tr: Tracker, disk: Disk, car: Car, fuel: byte): (Tracker, Disk) {
    if tr.state.checkpoint.Some? && IsDecrease(tr.state.checkpoint.value, fuel) then
      var e := SavingCheckpoint(tr, disk, car, fuel);
      (e.tracker, e.disk)
    else (tr, disk)
  }

  // ---- One call ----

  /** An observed change of the ignition starts over. */
  function IgnitionObserved(tr: Tracker, ignition: bool): Tracker {
    if !tr.ignitionInitialized then tr.(previousIgnition := ignition, ignitionInitialized := true)
    else if ignition != tr.previousIgnition then
      tr.(previousIgnition := ignition, offHandled := false,
          startupComplete := if ignition then false else tr.startupComplete, window := [], lastSampleTime := 0)
    else tr
  }

  function Sampled(tr: Tracker, now: nat, car: Car): Tracker {
    tr.(lastSampleTime := now, window := if car.ignition then LastFive(tr.window + [car.fuelLevel]) else tr.window)
  }

  function Evaluated(tr: Tracker, disk: Disk, car: Car): (Tracker, Disk) {
    var level := StableLevel(tr.window);
    if level.None? then (tr, disk)
    else if car.ignition && !tr.startupComplete then
      var e := Startup(tr, disk, car, level.value);
      (e.tracker.(startupComplete := e.ok), e.disk)
    else if !car.ignition && !tr.offHandled then
      var (off, disk') := IgnitionOff(tr, disk, car, level.value);
      (off.(offHandled := true), disk')
    else (tr, disk)
  }

  function Step(tr: Tracker, disk: Disk, now: nat, car: Car): (Tracker, Disk) {
    if !car.enabled then (tr, disk)
    else if !Usable(now, car) then (tr.(window := []), disk)
    else
      var observed := IgnitionObserved(tr, car.ignition);
      if TooSoon(now, observed.lastSampleTime) then (observed, disk)
      else Evaluated(Sampled(observed, now, car), disk, car)
  }

  // ---- The tracker itself ----

  class Storage {
    var saves: seq<PersistedState>
    var outcomes: seq<bool>

    function Model(): Disk
      reads this
    {
      Disk(saves, outcomes)
    }

    method SaveState(p: PersistedState) returns (ok: bool)
      modifies this
      ensures ok == old(Model().Accepts()) && Model() == old(Model()).Save(p)
    {
      ok := outcomes == [] || outcomes[0];
      if ok {
        saves := saves + [p];
      }
      if outcomes != [] {
        outcomes := outcomes[1..];
      }
    }
  }

  class FuelRefillTracker {
    const storage: Storage
    var state: PersistedState
    const samples: array<byte>
    var sampleIndex: nat
    var sampleSize: nat
    var lastSampleTime: nat
    var startupCheckComplete: bool
    var previousIgnition: bool
    var ignitionStateInitialized: bool
    var offCheckpointHandled: bool

    ghost predicate Valid()
      reads this
    {
      && samples.Length == SAMPLE_COUNT
      && sampleIndex < SAMPLE_COUNT && sampleSize <= SAMPLE_COUNT
      && (sampleSize < SAMPLE_COUNT ==> sampleIndex == sampleSize)
    }

    ghost function Window(): (r: seq<byte>)
      requires Valid()
      reads this, samples
      ensures |r| == sampleSize
    {
      Ring(samples[..], sampleIndex, sampleSize)
    }

    ghost function Model(): Tracker
      requires Valid()
      reads this, samples
    {
      Tracker(Window(), lastSampleTime, startupCheckComplete, previousIgnition, ignitionStateInitialized,
              offCheckpointHandled, state)
    }

    /** `loaded` is what reading the state file at startup yields. */
    constructor (storage: Storage, loaded: PersistedState)
      ensures Valid() && fresh(samples) && this.storage == storage
      ensures Model() == Tracker([], 0, false, false, false, false, loaded)
    {
      this.storage := storage;
      state := loaded;
      samples := new byte[SAMPLE_COUNT](_ => 0);
      sampleIndex, sampleSize, lastSampleTime := 0, 0, 0;
      startupCheckComplete, previousIgnition := false, false;
      ignitionStateInitialized, offCheckpointHandled := false, false;
    }

    method ResetSamples()
      requires Valid()
      modifies this`sampleIndex, this`sampleSize
      ensures Valid() && Window() == []
    {
      sampleIndex := 0;
      sampleSize := 0;
    }

    method AddSample(fuelPercent: byte, ignition: bool)
      requires Valid()
      modifies this`sampleIndex, this`sampleSize, samples
      ensures Valid()
      ensures Window() == if ignition then LastFive(old(Window()) + [fuelPercent]) else old(Window())
    {
      if !ignition {
        return;
      }
      hide Ring, LastFive;
      ghost var was, index, size := samples[..], sampleIndex, sampleSize;
      samples[sampleIndex] := fuelPercent;
      assert samples[..] == was[index := fuelPercent];
      sampleIndex := (sampleIndex + 1) % SAMPLE_COUNT;
      if sampleSize < SAMPLE_COUNT {
        sampleSize := sampleSize + 1;
      }
      RingAdd(was, index, size, fuelPercent);
    }

    method GetStableFuelLevel() returns (stable: bool, fuelPercent: byte)
      requires Valid()
      ensures stable == StableLevel(Window()).Some?
      ensures stable ==> fuelPercent == StableLevel(Window()).value
    {
      if sampleSize < SAMPLE_COUNT {
        return false, 0;
      }
      var sortedSamples := Sort(samples[..]);
      SortIgnoresRotation(samples[..], sampleIndex);
      if sortedSamples[SAMPLE_COUNT - 1] - sortedSamples[0] > MAXIMUM_STABLE_SPREAD_PERCENT {
        return false, 0;
      }
      return true, sortedSamples[SAMPLE_COUNT / 2];
    }

    method SaveCheckpoint(fuelPercent: byte, car: Car) returns (ok: bool)
      requires Valid()
      modifies this`state, storage
      ensures Effect(Model(), storage.Model(), ok)
           == SavingCheckpoint(old(Model()), old(storage.Model()), car, fuelPercent)
    {
      if !IsWallClockValid(car.clock) {
        return false;
      }
      var checkpoint := Checkpoint(car.clock, car.odometer, fuelPercent);
      var updated := state.(checkpoint := Some(checkpoint));
      var count := |updated.checkpoints|;
      var duplicate := count != 0 && updated.checkpoints[count - 1].odometer == car.odometer
                       && updated.checkpoints[count - 1].fuelPercent == fuelPercent;
      if !duplicate {
        if count == HISTORY_CAPACITY {
          updated := updated.(checkpoints := updated.checkpoints[1..]);
        }
        updated := updated.(checkpoints := updated.checkpoints + [checkpoint]);
      }
      ok := storage.SaveState(updated);
      if ok {
        state := updated;
      }
    }

    method AppendRefill(beforePercent: byte, afterPercent: byte, car: Car) returns (ok: bool)
      requires Valid()
      modifies this`state, storage
      ensures Effect(Model(), storage.Model(), ok)
           == AppendingRefill(old(Model()), old(storage.Model()), car, beforePercent, afterPercent)
    {
      if IsDuplicate(state.refills, beforePercent, afterPercent, car.odometer) {
        return true;
      }
      if !IsWallClockValid(car.clock) {
        return false;
      }
      var updated := state;
      if |updated.refills| == HISTORY_CAPACITY {
        updated := updated.(refills := updated.refills[1..]);
      }
      updated := updated.(refills := updated.refills + [Refill(car.clock, car.odometer, beforePercent, afterPercent)]);
      ok := storage.SaveState(updated);
      if ok {
        state := updated;
      }
    }

    method ProcessStartup(stableFuelPercent: byte, car: Car)
      requires Valid() && !startupCheckComplete
      modifies this`state, this`startupCheckComplete, storage
      ensures Valid()
      ensures var e := Startup(old(Model()), old(storage.Model()), car, stableFuelPercent);
              Model() == e.tracker.(startupComplete := e.ok) && storage.Model() == e.disk
    {
      hide AppendingRefill, SavingCheckpoint;
      if state.checkpoint.None? {
        startupCheckComplete := SaveCheckpoint(stableFuelPercent, car);
        return;
      }
      if IsRefill(state.checkpoint.value, stableFuelPercent) {
        var ok := AppendRefill(state.checkpoint.value.fuelPercent, stableFuelPercent, car);
        if ok {
          startupCheckComplete := SaveCheckpoint(stableFuelPercent, car);
        }
        return;
      }
      if IsDecrease(state.checkpoint.value, stableFuelPercent) {
        var ok := SaveCheckpoint(stableFuelPercent, car);
        if !ok {
          return;
        }
      }
      startupCheckComplete := true;
    }

    method ProcessIgnitionOff(stableFuelPercent: byte, car: Car)
      requires Valid()
      modifies this`state, storage
      ensures (Model(), storage.Model()) == IgnitionOff(old(Model()), old(storage.Model()), car, stableFuelPercent)
    {
      if state.checkpoint.None? {
        return;
      }
      if IsDecrease(state.checkpoint.value, stableFuelPercent) {
        var _ := SaveCheckpoint(stableFuelPercent, car);
      }
    }

    method ObserveIgnition(ignition: bool)
      requires Valid()
      modifies this
      ensures Valid() && Model() == IgnitionObserved(old(Model()), ignition)
    {
      if !ignitionStateInitialized {
        previousIgnition := ignition;
        ignitionStateInitialized := true;
      } else if ignition != previousIgnition {
        previousIgnition := ignition;
        offCheckpointHandled := false;
        if ignition {
          startupCheckComplete := false;
        }
        ResetSamples();
        lastSampleTime := 0;
      }
    }

    method Evaluate(car: Car)
      requires Valid()
      modifies this`state, this`startupCheckComplete, this`offCheckpointHandled, storage
      ensures Valid()
      ensures (Model(), storage.Model()) == Evaluated(old(Model()), old(storage.Model()), car)
    {
      hide StableLevel, Startup, IgnitionOff;
      var stable, stableFuelPercent := GetStableFuelLevel();
      if !stable {
        return;
      }
      if car.ignition && !startupCheckComplete {
        ProcessStartup(stableFuelPercent, car);
        return;
      }
      if !car.ignition && !offCheckpointHandled {
        ProcessIgnitionOff(stableFuelPercent, car);
        offCheckpointHandled := true;
      }
    }

    method Process(currentTime: nat, car: Car)
      requires Valid()
      modifies this, samples, storage
      ensures Valid()
      ensures (Model(), storage.Model()) == Step(old(Model()), old(storage.Model()), currentTime, car)
    {
      hide IgnitionObserved, Evaluated, Usable, TooSoon;
      if !car.enabled {
        return;
      }
      if !Usable(currentTime, car) {
        ResetSamples();
        return;
      }
      ObserveIgnition(car.ignition);
      if TooSoon(currentTime, lastSampleTime) {
        return;
      }
      lastSampleTime := currentTime;
      AddSample(car.fuelLevel, car.ignition);
      Evaluate(car);
    }
  }

  // ---- Sorting ----

  predicate IsSorted(s: seq<byte>) {
    forall i, j | 0 <= i < j < |s| :: s[i] <= s[j]
  }

  lemma SortedCons(x: byte, s: seq<byte>)
    requires IsSorted(s) && (s != [] ==> x <= s[0])
    ensures IsSorted([x] + s)
  {
  }

  lemma SplitFirst(s: seq<byte>)
    requires s != []
    ensures multiset(s) == multiset{s[0]} + multiset(s[1..]) && multiset(s[1..]) == multiset(s) - multiset{s[0]}
    ensures IsSorted(s) ==> IsSorted(s[1..]) && forall y | y in multiset(s) :: s[0] <= y
  {
    assert s == [s[0]] + s[1..];
  }

  lemma {:induction false} InsertSorted(x: byte, s: seq<byte>)
    requires IsSorted(s)
    ensures IsSorted(Insert(x, s)) && Insert(x, s)[0] == if s == [] || x <= s[0] then x else s[0]
  {
    if s != [] && x > s[0] {
      InsertSorted(x, s[1..]);
      SortedCons(s[0], Insert(x, s[1..]));
    } else {
      SortedCons(x, s);
    }
  }

  lemma {:induction false} InsertMultiset(x: byte, s: seq<byte>)
    ensures multiset(Insert(x, s)) == multiset(s) + multiset{x}
  {
    if s != [] && x > s[0] {
      InsertMultiset(x, s[1..]);
      SplitFirst(s);
    }
  }

  lemma {:induction false} SortSorts(s: seq<byte>)
    ensures IsSorted(Sort(s)) && multiset(Sort(s)) == multiset(s)
  {
    hide Insert, IsSorted;
    if s != [] {
      SortSorts(s[1..]);
      InsertSorted(s[0], Sort(s[1..]));
      InsertMultiset(s[0], Sort(s[1..]));
      SplitFirst(s);
    } else {
      EmptySorted();
    }
  }

  lemma EmptySorted()
    ensures IsSorted([])
  {
  }

  lemma SameFirst(x: seq<byte>, y: seq<byte>)
    requires IsSorted(x) && IsSorted(y) && multiset(x) == multiset(y) && x != [] && y != []
    ensures x[0] == y[0] && multiset(x[1..]) == multiset(y[1..])
  {
    hide IsSorted;
    SplitFirst(x);
    SplitFirst(y);
    assert x[0] in multiset(x) && y[0] in multiset(y);
  }

  lemma SameLength(x: seq<byte>, y: seq<byte>)
    requires multiset(x) == multiset(y)
    ensures |x| == |y|
  {
    assert |multiset(x)| == |x| && |multiset(y)| == |y|;
  }

  lemma {:induction false} SortedUnique(x: seq<byte>, y: seq<byte>)
    requires IsSorted(x) && IsSorted(y) && multiset(x) == multiset(y)
    ensures x == y
  {
    hide IsSorted;
    SameLength(x, y);
    if x != [] {
      SameFirst(x, y);
      SplitFirst(x);
      SplitFirst(y);
      SortedUnique(x[1..], y[1..]);
      assert x == [x[0]] + x[1..] && y == [y[0]] + y[1..];
    }
  }

  lemma RotationMultiset(s: seq<byte>, k: nat)
    requires k <= |s|
    ensures multiset(s[k..] + s[..k]) == multiset(s)
  {
    assert s == s[..k] + s[k..];
  }

  /** The ring buffer need not be unrolled before sorting. */
  lemma SortIgnoresRotation(s: seq<byte>, k: nat)
    requires k <= |s|
    ensures Sort(s[k..] + s[..k]) == Sort(s)
  {
    hide Sort, IsSorted;
    var t := s[k..] + s[..k];
    SortSorts(s);
    SortSorts(t);
    RotationMultiset(s, k);
    SortedUnique(Sort(s), Sort(t));
  }
}
