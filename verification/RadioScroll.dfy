/** The steering-wheel scroll filter: a wrapping counter with overflow flags is
    decoded, turned into volume pulses near a button push, and forwarded
    otherwise. */
module RadioScroll {
  import opened Bytes

  const VOLUME_BUTTON_WINDOW_MS := 3000
  const SCROLL_CONTINUATION_WINDOW_MS := 3000

  datatype Pulse = NoPulse | VolumeMinus | VolumePlus

  /** The counter runs through all byte values once; after an overflow it
      continues in the upper half, or from the middle down. */
  datatype ScrollState = ScrollState(position: byte, overflowNegative: bool, overflowPositive: bool) {
    function Increment(): ScrollState {
      if position == 0xFF then ScrollState(0x80, overflowNegative, !overflowPositive)
      else this.(position := position + 1)
    }

    function Decrement(): ScrollState {
      if position == 0x00 then ScrollState(0x80, !overflowNegative, overflowPositive)
      else this.(position := position - 1)
    }
  }

  /** The message on the bus; `others` stands for the bits that are passed on untouched. */
  datatype Remote = Remote(scroll: ScrollState, volumeMinus: bool, volumePlus: bool, others: nat)

  datatype Message = Message(remote: Remote, time: nat)

  datatype Result = Result(remote: Remote, pulse: Pulse)

  datatype State = State(initialized: bool, previousMinus: bool, previousPlus: bool, physical: ScrollState,
                         forwarded: ScrollState, buttonWindowEnd: nat, scrollWindowEnd: nat)

  const FRESH := State(false, false, false, ScrollState(0, false, false), ScrollState(0, false, false), 0, 0)

  function Advanced(s: ScrollState, delta: int): ScrollState
    decreases if delta < 0 then -delta else delta
  {
    if delta > 0 then Advanced(s.Increment(), delta - 1)
    else if delta < 0 then Advanced(s.Decrement(), delta + 1)
    else s
  }

  // Conversions to the 16-bit types of the source.
  function U16(x: int): nat { x % 0x10000 }

  function I16(x: int): int {
    if x % 0x10000 < 0x8000 then x % 0x10000 else x % 0x10000 - 0x10000
  }

  function ScrollDelta(previous: ScrollState, current: ScrollState): int {
    if current.overflowNegative != previous.overflowNegative then
      I16(-I16(previous.position + 1 + U16(0x80 - current.position)))
    else if current.overflowPositive != previous.overflowPositive then
      I16(U16(0xFF - previous.position) + 1 + U16(current.position - 0x80))
    else I16(current.position - previous.position)
  }

  predicate IsWindowOpen(now: nat, windowEnd: nat) {
    windowEnd != 0 && now <= windowEnd
  }

  predicate IsPush(st: State, remote: Remote) {
    (remote.volumeMinus && !st.previousMinus) || (remote.volumePlus && !st.previousPlus)
  }

  /** The state once a message has been looked at for button pushes. */
  function Observed(st: State, m: Message): State {
    var started := if st.initialized then st
                   else st.(initialized := true, physical := m.remote.scroll, forwarded := m.remote.scroll);
    var windows := if IsPush(st, m.remote)
                   then started.(buttonWindowEnd := m.time + VOLUME_BUTTON_WINDOW_MS, scrollWindowEnd := 0)
                   else started;
    windows.(previousMinus := m.remote.volumeMinus, previousPlus := m.remote.volumePlus)
  }

  function Step(st: State, m: Message): (State, Result) {
    var seen := Observed(st, m);
    var delta := ScrollDelta(seen.physical, m.remote.scroll);
    var moved := seen.(physical := m.remote.scroll);
    if delta != 0 && (IsWindowOpen(m.time, seen.buttonWindowEnd) || IsWindowOpen(m.time, seen.scrollWindowEnd)) then
      (moved.(scrollWindowEnd := m.time + SCROLL_CONTINUATION_WINDOW_MS),
       Result(m.remote.(scroll := seen.forwarded), if delta > 0 then VolumePlus else VolumeMinus))
    else
      var forwarded := Advanced(seen.forwarded, delta);
      (moved.(forwarded := forwarded), Result(m.remote.(scroll := forwarded), NoPulse))
  }

  method Advance(s: ScrollState, delta: int) returns (r: ScrollState)
    ensures r == Advanced(s, delta)
  {
    r := s;
    var left := delta;
    while left > 0
      invariant Advanced(r, left) == Advanced(s, delta) && (left >= 0 || left == delta)
    {
      r := r.Increment();
      left := left - 1;
    }
    while left < 0
      invariant Advanced(r, left) == Advanced(s, delta) && left <= 0
    {
      r := r.Decrement();
      left := left + 1;
    }
  }

  class RadioRemoteVolumeControl {
    var initialized: bool
    var previousVolumeMinus: bool
    var previousVolumePlus: bool
    var physicalScroll: ScrollState
    var forwardedScroll: ScrollState
    var volumeButtonWindowEnd: nat
    var scrollContinuationWindowEnd: nat

    ghost function Model(): State
      reads this
    {
      State(initialized, previousVolumeMinus, previousVolumePlus, physicalScroll, forwardedScroll,
            volumeButtonWindowEnd, scrollContinuationWindowEnd)
    }

    constructor ()
      ensures Model() == FRESH
    {
      initialized, previousVolumeMinus, previousVolumePlus := false, false, false;
      physicalScroll, forwardedScroll := ScrollState(0, false, false), ScrollState(0, false, false);
      volumeButtonWindowEnd, scrollContinuationWindowEnd := 0, 0;
    }

    method Process(input: Remote, currentTime: nat) returns (result: Result)
      modifies this
      ensures (Model(), result) == Step(old(Model()), Message(input, currentTime))
    {
      hide ScrollDelta, Advanced;
      result := Result(input, NoPulse);
      if !initialized {
        initialized := true;
        physicalScroll := input.scroll;
        forwardedScroll := input.scroll;
      }
      var minusPush := input.volumeMinus && !previousVolumeMinus;
      var plusPush := input.volumePlus && !previousVolumePlus;
      if minusPush || plusPush {
        volumeButtonWindowEnd := currentTime + VOLUME_BUTTON_WINDOW_MS;
        scrollContinuationWindowEnd := 0;
      }
      previousVolumeMinus := input.volumeMinus;
      previousVolumePlus := input.volumePlus;
      var delta := ScrollDelta(physicalScroll, input.scroll);
      physicalScroll := input.scroll;
      var windowOpen := IsWindowOpen(currentTime, volumeButtonWindowEnd)
                     || IsWindowOpen(currentTime, scrollContinuationWindowEnd);
      if delta != 0 && windowOpen {
        scrollContinuationWindowEnd := currentTime + SCROLL_CONTINUATION_WINDOW_MS;
        return Result(input.(scroll := forwardedScroll), if delta > 0 then VolumePlus else VolumeMinus);
      }
      forwardedScroll := Advance(forwardedScroll, delta);
      result := Result(input.(scroll := forwardedScroll), NoPulse);
    }
  }

  // ---- The counter ----

  /** Any number of steps up, in closed form: the first overflow after 256 - position
      steps, and from then on one every 128. */
  lemma {:induction false} UpInClosedForm(s: ScrollState, n: nat)
    ensures var r, t := Advanced(s, n), s.position + n;
            && r.overflowNegative == s.overflowNegative
            && (t <= 0xFF ==> r == s.(position := t))
            && (t > 0xFF ==> r.position == 0x80 + (t - 0x100) % 128)
            && (t > 0xFF ==> (r.overflowPositive != s.overflowPositive <==> (t - 0x100) / 128 % 2 == 0))
    decreases n
  {
    if n > 0 {
      assert Advanced(s, n) == Advanced(s.Increment(), n - 1);
      hide Advanced;
      UpInClosedForm(s.Increment(), n - 1);
      if s.position == 0xFF {
        OneLapLessUp(n - 1);
      }
    }
  }

  /** Any number of steps down: the first overflow after position + 1 steps, then one every 129. */
  lemma {:induction false} DownInClosedForm(s: ScrollState, n: nat)
    ensures var r, t := Advanced(s, 0 - n), s.position - n;
            && r.overflowPositive == s.overflowPositive
            && (t >= 0 ==> r == s.(position := t))
            && (t < 0 ==> r.position == 0x80 - (-t - 1) % 129)
            && (t < 0 ==> (r.overflowNegative != s.overflowNegative <==> (-t - 1) / 129 % 2 == 0))
    decreases n
  {
    if n > 0 {
      assert Advanced(s, 0 - n) == Advanced(s.Decrement(), 0 - (n - 1));
      hide Advanced;
      DownInClosedForm(s.Decrement(), n - 1);
      if s.position == 0 {
        OneLapLessDown(n - 1);
      }
    }
  }

  // Laps upwards and downwards have different lengths.
  lemma OneLapLessUp(u: nat)
    ensures u < 128 ==> u % 128 == u && u / 128 == 0
    ensures u >= 128 ==> u % 128 == (u - 128) % 128 && u / 128 == (u - 128) / 128 + 1
  {
  }

  lemma OneLapLessDown(u: nat)
    ensures u < 129 ==> u % 129 == u && u / 129 == 0
    ensures u >= 129 ==> u % 129 == (u - 129) % 129 && u / 129 == (u - 129) / 129 + 1
  {
  }

  lemma I16Same(x: int)
    ensures -0x8000 <= x < 0x8000 ==> I16(x) == x
    ensures 0x8000 <= x < 0x18000 ==> I16(x) == x - 0x10000
  {
  }

  lemma U16Same(x: int)
    requires -0x80 <= x <= 0xFF
    ensures U16(x) == if x >= 0 then x else x + 0x10000
  {
  }

  /** The 16-bit conversions never change a value. */
  lemma DeltaIsPlain(p: ScrollState, c: ScrollState)
    ensures ScrollDelta(p, c) ==
              if c.overflowNegative != p.overflowNegative then -(p.position + 129 - c.position)
              else if c.overflowPositive != p.overflowPositive then c.position + 128 - p.position
              else c.position - p.position
  {
    hide I16, U16;
    U16Same(0x80 - c.position);
    U16Same(0xFF - p.position);
    U16Same(c.position - 0x80);
    I16Same(p.position + 1 + U16(0x80 - c.position));
    I16Same(-I16(p.position + 1 + U16(0x80 - c.position)));
    I16Same(U16(0xFF - p.position) + 1 + U16(c.position - 0x80));
    I16Same(c.position - p.position);
  }

  /** The decoded step is the step made, exactly for the steps that wrap at most once. */
  lemma DeltaRecoversStep(s: ScrollState, d: int)
    ensures ScrollDelta(s, Advanced(s, d)) == d <==> -(s.position + 129) <= d <= 383 - s.position
  {
    hide Advanced, ScrollDelta;
    DeltaIsPlain(s, Advanced(s, d));
    if d >= 0 {
      UpInClosedForm(s, d);
    } else {
      DownInClosedForm(s, -d);
    }
  }

  /** Whether `c` can follow `p` by a movement that wraps at most once. */
  predicate Plausible(p: ScrollState, c: ScrollState) {
    && !(c.overflowNegative != p.overflowNegative && c.overflowPositive != p.overflowPositive)
    && (c.overflowNegative != p.overflowNegative ==> c.position <= 0x80)
    && (c.overflowPositive != p.overflowPositive ==> c.position >= 0x80)
  }

  /** Replaying the decoded step reproduces the reading, exactly for plausible readings. */
  lemma ReplayReproduces(p: ScrollState, c: ScrollState)
    ensures Advanced(p, ScrollDelta(p, c)) == c <==> Plausible(p, c)
  {
    hide Advanced, ScrollDelta;
    var d := ScrollDelta(p, c);
    DeltaIsPlain(p, c);
    if d >= 0 {
      UpInClosedForm(p, d);
    } else {
      DownInClosedForm(p, -d);
    }
  }

  // ---- Whole runs ----

  function StateAfter(ms: seq<Message>, n: nat): State
    requires n <= |ms|
  {
    if n == 0 then FRESH else Step(StateAfter(ms, n - 1), ms[n - 1]).0
  }

  /** The answer to message n. */
  function Answer(ms: seq<Message>, n: nat): Result
    requires n < |ms|
  {
    Step(StateAfter(ms, n), ms[n]).1
  }

  lemma StateFollowsMessages(ms: seq<Message>, n: nat)
    requires 1 <= n <= |ms|
    ensures var st, m := StateAfter(ms, n), ms[n - 1];
            && st.initialized && st.physical == m.remote.scroll
            && st.previousMinus == m.remote.volumeMinus && st.previousPlus == m.remote.volumePlus
            && st.forwarded == Answer(ms, n - 1).remote.scroll
  {
    hide ScrollDelta, Advanced;
  }

  predicate PushAt(ms: seq<Message>, n: nat)
    requires n < |ms|
  {
    || (ms[n].remote.volumeMinus && (n > 0 ==> !ms[n - 1].remote.volumeMinus))
    || (ms[n].remote.volumePlus && (n > 0 ==> !ms[n - 1].remote.volumePlus))
  }

  predicate PulseAt(ms: seq<Message>, n: nat)
    requires n < |ms|
  {
    Answer(ms, n).pulse != NoPulse
  }

  /** The step decoded from message n; the first message only sets the reference. */
  function StepAt(ms: seq<Message>, n: nat): int
    requires n < |ms|
  {
    if n == 0 then 0 else ScrollDelta(ms[n - 1].remote.scroll, ms[n].remote.scroll)
  }

  // One more than the index of the latest push up to message n; 0 when there is none.
  function LatestPush(ms: seq<Message>, n: nat): (r: nat)
    requires n <= |ms|
    ensures r <= n && (r > 0 ==> PushAt(ms, r - 1))
  {
    if n == 0 then 0 else if PushAt(ms, n - 1) then n else LatestPush(ms, n - 1)
  }

  // The same for the latest pulse among the first n messages that no later message pushes away.
  function LatestPulse(ms: seq<Message>, n: nat): (r: nat)
    requires n <= |ms|
    ensures r <= n && (r > 0 ==> PulseAt(ms, r - 1))
  {
    if n == 0 then 0
    else if PulseAt(ms, n - 1) then n
    else if PushAt(ms, n - 1) then 0
    else LatestPulse(ms, n - 1)
  }

  function WindowFrom(ms: seq<Message>, event: nat): nat
    requires event <= |ms|
  {
    if event == 0 then 0 else ms[event - 1].time + 3000
  }

  lemma PushSeen(ms: seq<Message>, n: nat)
    requires n < |ms|
    ensures IsPush(StateAfter(ms, n), ms[n].remote) == PushAt(ms, n)
    ensures var seen := Observed(StateAfter(ms, n), ms[n]);
            ScrollDelta(seen.physical, ms[n].remote.scroll) == StepAt(ms, n)
  {
    if n > 0 {
      StateFollowsMessages(ms, n);
    } else {
      DeltaIsPlain(ms[n].remote.scroll, ms[n].remote.scroll);
    }
  }

  /** One message, in terms of whether it is a push and how far the scroll moved. */
  lemma OneMessage(st: State, m: Message)
    ensures var (st', r) := Step(st, m);
            var push, delta := IsPush(st, m.remote), ScrollDelta(Observed(st, m).physical, m.remote.scroll);
            && st'.buttonWindowEnd == (if push then m.time + 3000 else st.buttonWindowEnd)
            && (r.pulse == NoPulse ==> st'.scrollWindowEnd == if push then 0 else st.scrollWindowEnd)
            && (r.pulse != NoPulse ==> st'.scrollWindowEnd == m.time + 3000)
            && (r.pulse != NoPulse <==>
                  delta != 0 && (IsWindowOpen(m.time, st'.buttonWindowEnd)
                                 || (!push && IsWindowOpen(m.time, st.scrollWindowEnd))))
            && (r.pulse != NoPulse ==> r.pulse == if delta > 0 then VolumePlus else VolumeMinus)
  {
    hide ScrollDelta, Advanced;
  }

  lemma {:induction false} WindowsFollowEvents(ms: seq<Message>, n: nat)
    requires n <= |ms|
    ensures StateAfter(ms, n).buttonWindowEnd == WindowFrom(ms, LatestPush(ms, n))
    ensures StateAfter(ms, n).scrollWindowEnd == WindowFrom(ms, LatestPulse(ms, n))
  {
    hide ScrollDelta, Advanced, Step, PushAt, IsPush, Observed;
    if n > 0 {
      var st, m := StateAfter(ms, n - 1), ms[n - 1];
      assert StateAfter(ms, n) == Step(st, m).0;
      assert PulseAt(ms, n - 1) <==> Step(st, m).1.pulse != NoPulse;
      hide StateAfter, PulseAt;
      WindowsFollowEvents(ms, n - 1);
      PushSeen(ms, n - 1);
      OneMessage(st, m);
    }
  }

  predicate Within(ms: seq<Message>, event: nat, n: nat)
    requires event <= |ms| && n < |ms|
  {
    event > 0 && ms[n].time <= ms[event - 1].time + 3000
  }

  lemma NextState(ms: seq<Message>, n: nat)
    requires n < |ms|
    ensures StateAfter(ms, n + 1) == Step(StateAfter(ms, n), ms[n]).0
  {
    hide Step;
  }

  lemma WithinIsOpen(ms: seq<Message>, event: nat, n: nat)
    requires event <= |ms| && n < |ms|
    ensures IsWindowOpen(ms[n].time, WindowFrom(ms, event)) <==> Within(ms, event, n)
  {
  }

  /** Exactly when a message becomes a pulse, in terms of the messages alone: the
      scroll moved, at most 3000 ms after the latest push or after the latest
      pulse since that push. The pulse points the way the scroll moved. */
  lemma PulseExactly(ms: seq<Message>, n: nat)
    requires n < |ms|
    ensures PulseAt(ms, n) <==>
              && StepAt(ms, n) != 0
              && (Within(ms, LatestPush(ms, n + 1), n) || (!PushAt(ms, n) && Within(ms, LatestPulse(ms, n), n)))
    ensures PulseAt(ms, n) ==> Answer(ms, n).pulse == if StepAt(ms, n) > 0 then VolumePlus else VolumeMinus
  {
    hide ScrollDelta, Advanced, Step, PushAt, StepAt, IsPush, Observed, LatestPulse, StateAfter;
    var st := StateAfter(ms, n);
    assert Answer(ms, n) == Step(st, ms[n]).1;
    WindowsFollowEvents(ms, n);
    WindowsFollowEvents(ms, n + 1);
    assert StateAfter(ms, n + 1).buttonWindowEnd == Step(st, ms[n]).0.buttonWindowEnd by {
      NextState(ms, n);
    }
    hide LatestPush, Answer, WindowFrom, IsWindowOpen, Within;
    WithinIsOpen(ms, LatestPush(ms, n + 1), n);
    WithinIsOpen(ms, LatestPulse(ms, n), n);
    PushSeen(ms, n);
    OneMessage(st, ms[n]);
  }

  /** A pulse is justified by a push, or by an earlier justified pulse, at most 3000 ms before it. */
  predicate TracesBack(ms: seq<Message>, n: nat)
    requires n < |ms|
  {
    || (exists j :: 0 <= j <= n && PushAt(ms, j) && ms[n].time <= ms[j].time + 3000)
    || (exists k :: 0 <= k < n && PulseAt(ms, k) && ms[n].time <= ms[k].time + 3000 && TracesBack(ms, k))
  }

  lemma {:induction false} EveryPulseTracesBack(ms: seq<Message>, n: nat)
    requires n < |ms| && PulseAt(ms, n)
    ensures TracesBack(ms, n)
  {
    hide PushAt, PulseAt, StepAt, Answer, StateAfter, Step, LatestPush, LatestPulse;
    PulseExactly(ms, n);
    var j, k := LatestPush(ms, n + 1), LatestPulse(ms, n);
    if Within(ms, j, n) {
      assert PushAt(ms, j - 1);
    } else {
      EveryPulseTracesBack(ms, k - 1);
    }
  }

  /** Whatever the filter does, it touches nothing of a message but its scroll. */
  lemma OnlyScrollChanges(ms: seq<Message>, n: nat)
    requires n < |ms|
    ensures var input, answer := ms[n].remote, Answer(ms, n).remote;
            && answer.volumeMinus == input.volumeMinus && answer.volumePlus == input.volumePlus
            && answer.others == input.others
  {
    hide StateAfter, ScrollDelta, Advanced, Observed;
  }

  // ---- Transparency and conservation ----

  lemma {:induction false} NoPushNoPulse(ms: seq<Message>, n: nat)
    requires n < |ms| && forall i | 0 <= i <= n :: !PushAt(ms, i)
    ensures LatestPush(ms, n + 1) == LatestPulse(ms, n) == 0 && !PulseAt(ms, n)
  {
    if n > 0 {
      NoPushNoPulse(ms, n - 1);
    }
    PulseExactly(ms, n);
  }

  predicate PassedOn(ms: seq<Message>, n: nat)
    requires n < |ms|
  {
    Answer(ms, n) == Result(ms[n].remote, NoPulse)
  }

  predicate PlausibleAt(ms: seq<Message>, n: nat)
    requires n < |ms|
  {
    n > 0 ==> Plausible(ms[n - 1].remote.scroll, ms[n].remote.scroll)
  }

  lemma PassedOnIfPlausible(ms: seq<Message>, n: nat)
    requires n < |ms| && !PulseAt(ms, n) && (n > 0 ==> PassedOn(ms, n - 1))
    ensures PassedOn(ms, n) <==> PlausibleAt(ms, n)
  {
    hide ScrollDelta, Advanced, Plausible;
    PushSeen(ms, n);
    if n > 0 {
      StateFollowsMessages(ms, n);
      ReplayReproduces(ms[n - 1].remote.scroll, ms[n].remote.scroll);
    } else {
      NoStep(ms[0].remote.scroll);
    }
  }

  lemma NoStep(s: ScrollState)
    ensures ScrollDelta(s, s) == 0 && Advanced(s, 0) == s
  {
    DeltaIsPlain(s, s);
  }

  /** Without a button push the filter is invisible up to message n exactly when
      every movement up to there is plausible. */
  lemma {:induction false} TransparentIffPlausible(ms: seq<Message>, n: nat)
    requires n < |ms| && forall i | 0 <= i <= n :: !PushAt(ms, i)
    ensures (forall i | 0 <= i <= n :: PassedOn(ms, i)) <==> (forall i | 0 <= i <= n :: PlausibleAt(ms, i))
  {
    hide PassedOn, PlausibleAt, PushAt, PulseAt;
    NoPushNoPulse(ms, n);
    if n > 0 {
      TransparentIffPlausible(ms, n - 1);
      if forall i | 0 <= i <= n - 1 :: PassedOn(ms, i) {
        PassedOnIfPlausible(ms, n);
      }
    } else {
      PassedOnIfPlausible(ms, n);
    }
  }

  /** The wheel is turned by `steps`, at most 128 either way between two messages. */
  predicate Turned(ms: seq<Message>, steps: seq<int>) {
    && |ms| == |steps| + 1
    && forall i | 0 <= i < |steps| ::
         -128 <= steps[i] <= 128 && ms[i + 1].remote.scroll == Advanced(ms[i].remote.scroll, steps[i])
  }

  function Total(steps: seq<int>, n: nat): int
    requires n <= |steps|
  {
    if n == 0 then 0 else Total(steps, n - 1) + steps[n - 1]
  }

  /** What a reader of the forwarded messages decodes from the first n + 1 of them. */
  function ForwardedTotal(ms: seq<Message>, n: nat): int
    requires n < |ms|
  {
    if n == 0 then 0
    else ForwardedTotal(ms, n - 1) + ScrollDelta(Answer(ms, n - 1).remote.scroll, Answer(ms, n).remote.scroll)
  }

  function PulsedTotal(ms: seq<Message>, n: nat): int
    requires n < |ms|
  {
    if n == 0 then 0 else PulsedTotal(ms, n - 1) + if PulseAt(ms, n) then StepAt(ms, n) else 0
  }

  lemma OneStepConserved(ms: seq<Message>, steps: seq<int>, n: nat)
    requires Turned(ms, steps) && 1 <= n <= |steps|
    ensures StepAt(ms, n) == steps[n - 1]
    ensures ScrollDelta(Answer(ms, n - 1).remote.scroll, Answer(ms, n).remote.scroll)
         == if PulseAt(ms, n) then 0 else steps[n - 1]
  {
    PushSeen(ms, n);
    StateFollowsMessages(ms, n);
    var st := StateAfter(ms, n);
    DeltaRecoversStep(ms[n - 1].remote.scroll, steps[n - 1]);
    DeltaRecoversStep(st.forwarded, steps[n - 1]);
    DeltaIsPlain(st.forwarded, st.forwarded);
    hide ScrollDelta, Advanced;
  }

  /** Nothing is lost or made up: after every message the way the wheel was turned
      is what the forwarded messages say plus what became pulses. */
  lemma {:induction false} StepsConserved(ms: seq<Message>, steps: seq<int>, n: nat)
    requires Turned(ms, steps) && |ms| == |steps| + 1 && n <= |steps|
    ensures Total(steps, n) == ForwardedTotal(ms, n) + PulsedTotal(ms, n)
  {
    hide ScrollDelta, PulseAt, StepAt, Answer, Turned;
    if n > 0 {
      OneStepConserved(ms, steps, n);
      StepsConserved(ms, steps, n - 1);
    }
  }
}
