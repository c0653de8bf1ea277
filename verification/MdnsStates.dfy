/** The state of an interface outside the course of probing and announcing: how
    often probing has failed, what it does while switched off, and what each
    request does in each of its states. */
module MdnsStates {
  import opened MdnsCourse
  import opened MdnsProbing
  import opened MdnsQueue
  import opened MdnsResponder

  // ---- Failed probes ----

  /** The step clears the count of failed probes: the announcement replaces the
      probe, or an interface that is ready is stopped. */
  predicate ClearsFailures(r: Responder, step: Step, iface: nat)
    requires Possible(step)
  {
    || (step.Action? && PcbOf(r, iface).state == Probe3 && PcbOf(Next(r, step), iface).state == Announce1)
    || (step.Stop? && step.iface == iface && step.ready)
  }

  /** How often probing has failed on an interface since the count was cleared last. */
  function Failures(steps: seq<Step>, iface: nat, n: nat): nat
    requires Run(steps) && n <= |steps|
  {
    if n == 0 then 0
    else if ClearsFailures(After(steps, n - 1), steps[n - 1], iface) then 0
    else Failures(steps, iface, n - 1) + if steps[n - 1] == FailProbe(iface) then 1 else 0
  }

  lemma StepCountsFailures(r: Responder, step: Step, iface: nat)
    requires Possible(step)
    ensures PcbOf(Next(r, step), iface).failedProbes ==
              if ClearsFailures(r, step, iface) then 0
              else if step == FailProbe(iface) then (PcbOf(r, iface).failedProbes + 1) % 65536
              else PcbOf(r, iface).failedProbes
  {
    hide Cleared, Without, Inserted, HandedOver, FirstUnqueued;
    if step.Timer? {
      TimerKeepsPcbs(r, step.outcomes);
    }
  }

  lemma TimerKeepsPcbs(r: Responder, outcomes: seq<Push>)
    ensures TimerRun(r, outcomes).pcbs == r.pcbs
  {
    HandingOverMarks(r, FirstUnqueued(r.queue, 0), outcomes);
  }

  lemma {:induction false} FailuresCounted(steps: seq<Step>, iface: nat, n: nat)
    requires Run(steps) && n <= |steps|
    ensures PcbOf(After(steps, n), iface).failedProbes == Failures(steps, iface, n) % 65536
  {
    hide Next, ClearsFailures;
    if n > 0 {
      FailuresCounted(steps, iface, n - 1);
      assert Possible(steps[n - 1]);
      StepCountsFailures(After(steps, n - 1), steps[n - 1], iface);
    } else {
      assert PcbOf(FRESH, iface) == Pcb(Off, 0);
    }
  }

  /** In every run a start of probing waits 120 to 247 ms, and 1000 to 1127 ms
      exactly if probing has failed more than five times since the interface last
      announced or was stopped; the count has 16 bits. */
  lemma ProbeWaitExactly(steps: seq<Step>, n: nat, iface: nat, jitter: nat)
    requires Run(steps) && n < |steps| && steps[n] == InitProbe(iface, true, true, jitter)
    ensures var probes, failures := Of(After(steps, n + 1).queue, iface), Failures(steps, iface, n);
            && |probes| == 1 && probes[0].kind == Probe
            && probes[0].sendAt
            == After(steps, n).now + jitter % 128 + if failures % 65536 > 5 then 1000 else 120
  {
    FailuresCounted(steps, iface, n);
    CourseStarts(After(steps, n), iface, jitter);
    hide ProbeInit, Of, Failures;
  }

  // ---- Switched off ----

  predicate SilentlyOff(r: Responder, iface: nat) {
    PcbOf(r, iface).state == Off && Of(r.queue, iface) == []
  }

  /** Neither starts probing on the interface nor marks it as a duplicate. */
  predicate LeavesOff(step: Step, iface: nat) {
    match step
    case InitProbe(other, _, _, _) => other != iface
    case Stop(other, _, s) => s == Off || (s == Dup && other != iface)
    case _ => true
  }

  lemma AloneStaysOff(r: Responder, r': Responder, iface: nat)
    requires SilentlyOff(r, iface) && Alone(r, r', iface)
    ensures SilentlyOff(r', iface)
  {
  }

  lemma StepStaysOff(r: Responder, step: Step, iface: nat)
    requires SilentlyOff(r, iface) && LeavesOff(step, iface)
    ensures Possible(step) && SilentlyOff(Next(r, step), iface) && !Transmits(r, step, iface)
  {
    NotAtHead(r, iface);
    hide Alone, TimerRun, ActionRun, ProbeInit, Of, Cleared, Without, Inserted, HandedOver, HasPacket;
    match step
    case Elapse(ms) =>
    case Timer(outcomes) =>
      TimerLeavesAlone(r, outcomes, iface);
      AloneStaysOff(r, Next(r, step), iface);
    case Action(built) =>
      OtherActionLeavesAlone(r, built, iface);
      AloneStaysOff(r, Next(r, step), iface);
    case InitProbe(other, hasHost, built, jitter) =>
      ProbeInitLeavesAlone(r, other, hasHost, built, jitter, iface);
      AloneStaysOff(r, Next(r, step), iface);
    case Announce(other, hasHost, built, jitter) =>
      if other != iface {
        AnnounceLeavesAlone(r, other, hasHost, built, jitter, iface);
        AloneStaysOff(r, Next(r, step), iface);
      }
    case Respond(other, share) =>
      if other != iface {
        RespondLeavesAlone(r, other, share, iface);
        AloneStaysOff(r, Next(r, step), iface);
      }
    case FailProbe(other) =>
    case Stop(other, ready, s) => OfCleared(r.queue, other, iface);
    case RemoveService(drop, settled) => OfWithout(r.queue, drop, iface);
    case ClearAll => OfNothing(iface);
  }

  lemma OfNothing(iface: nat)
    ensures Of([], iface) == []
  {
  }

  lemma NotAtHead(r: Responder, iface: nat)
    requires Of(r.queue, iface) == []
    ensures r.queue != [] ==> r.queue[0].iface != iface
  {
    OfMembers(r.queue, iface);
  }

  /** An interface that has been switched off and cleared stays off, queues nothing
      and transmits nothing, whatever is announced, asked, failed or removed, until
      probing is started on it or it is marked as a duplicate. */
  lemma {:induction false} OffStaysSilent(steps: seq<Step>, m: nat, n: nat, iface: nat)
    requires Run(steps) && m <= n <= |steps| && SilentlyOff(After(steps, m), iface)
    requires forall i | m <= i < n :: LeavesOff(steps[i], iface)
    ensures SilentlyOff(After(steps, n), iface)
    ensures forall i | m <= i < n :: !Transmits(After(steps, i), steps[i], iface)
    decreases n
  {
    hide Next, SilentlyOff, LeavesOff, Transmits;
    if m < n {
      OffStaysSilent(steps, m, n - 1, iface);
      StepStaysOff(After(steps, n - 1), steps[n - 1], iface);
    }
  }

  lemma StoppingSilences(r: Responder, iface: nat)
    ensures SilentlyOff(Next(r, Stop(iface, true, Off)), iface)
  {
    hide Of, Cleared;
    OfCleared(r.queue, iface, iface);
  }

  // ---- Requests ----

  /** A request to announce, by the state of the interface. Before it has
      announced, probing starts over; while it announces, it starts over with the
      packet it has, if any; when it is running, one more packet is due at once,
      which makes it announce; while it is off nothing happens. */
  lemma AnnounceByState(r: Responder, iface: nat, jitter: nat)
    ensures var r', s := Next(r, Announce(iface, true, true, jitter)), PcbOf(r, iface).state;
            var had, has, s' := Of(r.queue, iface), Of(r'.queue, iface), PcbOf(r', iface).state;
            && (s == Off ==> r' == r)
            && (s in {Dup, Init, Probe1, Probe2, Probe3} ==>
                  s' == Probe1 && |has| == 1 && has[0].kind == Probe && has[0].sentAt == [] && has[0].sendAt > r.now)
            && (s in {Announce1, Announce2, Announce3} ==> has == had && s' == if had == [] then s else Announce1)
            && (s == Running ==> s' == Announce1 && |has| == |had| + 1)
  {
    CourseStarts(r, iface, jitter);
    OfMembers(r.queue, iface);
    var p := Packet(r.nextId, iface, r.now, false, Other, []);
    OneMorePacket(r.queue, p);
    hide ProbeInit, Of, Inserted;
    var had := Of(r.queue, iface);
    assert HasPacket(r.queue, iface) <==> had != [] by {
      if had != [] {
        assert had[0] in had;
      }
    }
  }

  lemma OneMorePacket(q: seq<Packet>, p: Packet)
    ensures |Of(Inserted(q, p), p.iface)| == |Of(q, p.iface)| + 1
    ensures p in Of(Inserted(q, p), p.iface)
  {
    var at := Position(q, p.sendAt, 0);
    OfAppend(q[..at], [p], p.iface);
    OfAppend(q[..at] + [p], q[at..], p.iface);
    OfAppend(q[..at], q[at..], p.iface);
    assert q[..at] + q[at..] == q;
    OfOne(p, p.iface);
  }

  /** A shared answer is accepted exactly once the interface announces or runs, and
      is then due 25, 50, 75 or 100 ms later. */
  lemma AnswerAcceptedExactly(r: Responder, iface: nat, share: nat)
    ensures var r', s := Next(r, Respond(iface, share)), PcbOf(r, iface).state;
            var answer := Packet(r.nextId, iface, r.now + [25, 50, 75, 100][share % 4], false, Other, []);
            if s in {Announce1, Announce2, Announce3, Running}
            then answer in Of(r'.queue, iface) && |Of(r'.queue, iface)| == |Of(r.queue, iface)| + 1 && r'.pcbs == r.pcbs
            else r' == r
  {
    OneMorePacket(r.queue, Packet(r.nextId, iface, r.now + [25, 50, 75, 100][share % 4], false, Other, []));
    hide Of, Inserted;
  }

  /** Removing a service ends probing and announcing of it: exactly the interfaces
      that did either for that service alone are running afterwards, and exactly the
      packets left empty go. */
  lemma RemovalSettles(r: Responder, drop: set<nat>, settled: set<nat>, iface: nat)
    ensures var r', s := Next(r, RemoveService(drop, settled)), PcbOf(r, iface).state;
            && PcbOf(r', iface).state == (if iface in settled && s !in {Off, Running} then Running else s)
            && PcbOf(r', iface).failedProbes == PcbOf(r, iface).failedProbes
            && forall p :: p in r'.queue <==> p in r.queue && p.id !in drop
  {
    NothingDropped(r.queue, drop);
    hide Without;
  }

  lemma {:induction false} NothingDropped(q: seq<Packet>, drop: set<nat>)
    ensures forall p | p in Without(q, drop) :: p.id !in drop && p in q
    ensures forall p | p in q && p.id !in drop :: p in Without(q, drop)
  {
    if q != [] {
      NothingDropped(q[..|q| - 1], drop);
      assert q == q[..|q| - 1] + [q[|q| - 1]];
    }
  }
}
