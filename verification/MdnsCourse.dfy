/** The course an interface takes from the start of probing until it is running:
    how often its packets are transmitted, when each transmission is due, and
    that nothing but time and the two tasks is needed to get to the end. */
module MdnsCourse {
  import opened MdnsProbing
  import opened MdnsQueue
  import opened MdnsResponder

  /** The packets an interface has in the queue. */
  function Of(q: seq<Packet>, iface: nat): seq<Packet> {
    if q == [] then [] else Of(q[..|q| - 1], iface) + if q[|q| - 1].iface == iface then [q[|q| - 1]] else []
  }

  /** When transmission i is due, the first one at `first`: probes and the first
      announcement 250 ms after the transmission before, the other announcements 1000 ms. */
  function DueAt(first: nat, times: seq<nat>, i: nat): nat
    requires i <= |times| && i < 6
  {
    if i == 0 then first else times[i - 1] + [250, 250, 250, 1000, 1000][i - 1]
  }

  /** The states an interface goes through, one for each number of transmissions. */
  function StateAfter(n: nat): PcbState
    requires n <= 6
  {
    [Probe1, Probe2, Probe3, Announce1, Announce2, Announce3, Running][n]
  }

  /** Its one packet: the probe, and from the third transmission on the announcement built from it. */
  predicate RightPacket(p: Packet, iface: nat, first: nat, times: seq<nat>, now: nat)
    requires |times| < 6
  {
    && p.iface == iface && p.sendAt == DueAt(first, times, |times|) && (p.queued ==> p.sendAt < now)
    && (|times| < 3 ==> p.kind == Probe && p.sentAt == times)
    && (|times| >= 3 ==> p.kind == Announcement(times[..3]) && p.sentAt == times[3..])
  }

  /** Where an interface stands after transmissions at these times. */
  predicate OnCourse(r: Responder, iface: nat, first: nat, times: seq<nat>) {
    && |times| <= 6 && PcbOf(r, iface).state == StateAfter(|times|)
    && (forall i | 0 <= i < |times| :: times[i] > DueAt(first, times, i))
    && if |times| == 6 then Of(r.queue, iface) == []
       else |Of(r.queue, iface)| == 1 && RightPacket(Of(r.queue, iface)[0], iface, first, times, r.now)
  }

  /** The step transmits a packet of the interface. */
  predicate Transmits(r: Responder, step: Step, iface: nat) {
    step.Action? && r.actions != [] && AtHead(r, r.actions[0]) && r.queue[0].iface == iface
  }

  /** Building works, and nobody restarts, announces, answers on, stops or clears the
      interface or takes its packet away; everything else may happen. */
  predicate Undisturbed(r: Responder, step: Step, iface: nat) {
    match step
    case Action(built) => built
    case InitProbe(other, _, _, _) => other != iface
    case Announce(other, _, _, _) => other != iface
    case Respond(other, _) => other != iface
    case Stop(other, _, s) => other != iface && s in {Off, Dup}
    case RemoveService(drop, settled) => iface !in settled && forall p | p in Of(r.queue, iface) :: p.id !in drop
    case ClearAll => false
    case _ => true
  }

  // ---- The packets of an interface ----

  lemma {:induction false} OfAppend(x: seq<Packet>, y: seq<Packet>, iface: nat)
    ensures Of(x + y, iface) == Of(x, iface) + Of(y, iface)
  {
    if y == [] {
      assert x + y == x;
    } else {
      assert (x + y)[..|x + y| - 1] == x + y[..|y| - 1];
      OfAppend(x, y[..|y| - 1], iface);
    }
  }

  lemma OfOne(p: Packet, iface: nat)
    ensures Of([p], iface) == if p.iface == iface then [p] else []
  {
    assert [p][..0] == [];
  }

  lemma OfHead(q: seq<Packet>, iface: nat)
    requires q != []
    ensures Of(q, iface) == (if q[0].iface == iface then [q[0]] else []) + Of(q[1..], iface)
  {
    assert q == [q[0]] + q[1..];
    OfAppend([q[0]], q[1..], iface);
    OfOne(q[0], iface);
  }

  lemma OfInserted(q: seq<Packet>, p: Packet, iface: nat)
    ensures p.iface != iface ==> Of(Inserted(q, p), iface) == Of(q, iface)
    ensures p.iface == iface && Of(q, iface) == [] ==> Of(Inserted(q, p), iface) == [p]
  {
    var at := Position(q, p.sendAt, 0);
    OfAppend(q[..at], [p], iface);
    OfAppend(q[..at] + [p], q[at..], iface);
    OfAppend(q[..at], q[at..], iface);
    assert q[..at] + q[at..] == q;
    OfOne(p, iface);
    assert Of(q[..at], iface) + [] == Of(q[..at], iface);
  }

  lemma {:induction false} OfCleared(q: seq<Packet>, cleared: nat, iface: nat)
    ensures Of(Cleared(q, cleared), iface) == if iface == cleared then [] else Of(q, iface)
  {
    if q != [] {
      var front, last := q[..|q| - 1], q[|q| - 1];
      OfCleared(front, cleared, iface);
      OfAppend(Cleared(front, cleared), [last], iface);
      OfOne(last, iface);
    }
  }

  lemma {:induction false} OfWithout(q: seq<Packet>, drop: set<nat>, iface: nat)
    requires forall p | p in Of(q, iface) :: p.id !in drop
    ensures Of(Without(q, drop), iface) == Of(q, iface)
  {
    if q != [] {
      var front, last := q[..|q| - 1], q[|q| - 1];
      assert last.iface == iface ==> last in Of(q, iface);
      OfWithout(front, drop, iface);
      OfAppend(Without(front, drop), [last], iface);
      OfOne(last, iface);
    }
  }

  lemma {:induction false} OfMarked(q: seq<Packet>, q': seq<Packet>, iface: nat)
    requires SameButMarks(q, q')
    ensures SameButMarks(Of(q, iface), Of(q', iface))
  {
    if q != [] {
      OfMarked(q[..|q| - 1], q'[..|q| - 1], iface);
    }
  }

  lemma {:induction false} OfMembers(q: seq<Packet>, iface: nat)
    ensures forall p | p in Of(q, iface) :: p in q && p.iface == iface
    ensures forall p | p in q && p.iface == iface :: p in Of(q, iface)
  {
    if q != [] {
      OfMembers(q[..|q| - 1], iface);
      assert q == q[..|q| - 1] + [q[|q| - 1]];
    }
  }

  // ---- Steps that leave the interface alone ----

  /** Nothing about the interface has changed but the clock and marks of overdue packets. */
  predicate Alone(r: Responder, r': Responder, iface: nat) {
    && PcbOf(r', iface).state == PcbOf(r, iface).state && r'.now >= r.now
    && SameButMarks(Of(r.queue, iface), Of(r'.queue, iface))
    && forall p | p in Of(r'.queue, iface) && p.queued :: p in Of(r.queue, iface) || p.sendAt < r'.now
  }

  lemma AloneStaysOnCourse(r: Responder, r': Responder, iface: nat, first: nat, times: seq<nat>)
    requires OnCourse(r, iface, first, times) && Alone(r, r', iface)
    ensures OnCourse(r', iface, first, times)
  {
    hide StateAfter;
    if |times| < 6 {
      var p' := Of(r'.queue, iface)[0];
      assert p' in Of(r'.queue, iface);
      assert p' == Of(r.queue, iface)[0].(queued := p'.queued);
      assert p' in Of(r.queue, iface) ==> p' == Of(r.queue, iface)[0];
    }
  }

  lemma SameIsAlone(r: Responder, r': Responder, iface: nat)
    requires PcbOf(r', iface).state == PcbOf(r, iface).state && r'.now >= r.now
    requires Of(r'.queue, iface) == Of(r.queue, iface)
    ensures Alone(r, r', iface)
  {
  }

  lemma TimerLeavesAlone(r: Responder, outcomes: seq<Push>, iface: nat)
    ensures Alone(r, TimerRun(r, outcomes), iface)
  {
    var i, r' := FirstUnqueued(r.queue, 0), TimerRun(r, outcomes);
    HandingOverMarks(r, i, outcomes);
    hide HandedOver;
    OfMarked(r.queue, r'.queue, iface);
    OfMembers(r.queue, iface);
    OfMembers(r'.queue, iface);
    forall p | p in Of(r'.queue, iface) && p.queued ensures p in Of(r.queue, iface) || p.sendAt < r'.now {
      var j :| 0 <= j < |r'.queue| && r'.queue[j] == p;
      assert r'.queue[j] == r.queue[j].(queued := true);
      assert r.queue[j].queued ==> r.queue[j] == p;
    }
  }

  lemma ProbeInitLeavesAlone(r: Responder, other: nat, hasHost: bool, built: bool, jitter: nat, iface: nat)
    requires other != iface
    ensures Alone(r, ProbeInit(r, other, hasHost, built, jitter), iface)
  {
    hide Cleared, Inserted, ProbeDelay, Of, SameButMarks;
    OfCleared(r.queue, other, iface);
    var delay := ProbeDelay(PcbOf(r, other).failedProbes, jitter);
    OfInserted(Cleared(r.queue, other), Packet(r.nextId, other, r.now + delay, false, Probe, []), iface);
    var r' := ProbeInit(r, other, hasHost, built, jitter);
    assert Of(r'.queue, iface) == Of(r.queue, iface) && PcbOf(r', iface) == PcbOf(r, iface) && r'.now == r.now;
    hide ProbeInit, Alone;
    SameIsAlone(r, r', iface);
  }

  lemma AnnounceLeavesAlone(r: Responder, other: nat, hasHost: bool, built: bool, jitter: nat, iface: nat)
    requires other != iface
    ensures Alone(r, Announced(r, other, hasHost, built, jitter), iface)
  {
    hide Inserted, Of, SameButMarks, ProbeInit, Alone, HasPacket;
    ProbeInitLeavesAlone(r, other, hasHost, built, jitter, iface);
    OfInserted(r.queue, Packet(r.nextId, other, r.now, false, Other, []), iface);
    var r' := Announced(r, other, hasHost, built, jitter);
    if !IsProbing(PcbOf(r, other).state) {
      SameIsAlone(r, r', iface);
    }
  }

  lemma RespondLeavesAlone(r: Responder, other: nat, share: nat, iface: nat)
    requires other != iface
    ensures Alone(r, Responded(r, other, share), iface)
  {
    hide Inserted, Of, SameButMarks, Alone;
    OfInserted(r.queue, Packet(r.nextId, other, r.now + 25 + 25 * (share % 4), false, Other, []), iface);
    SameIsAlone(r, Responded(r, other, share), iface);
  }

  lemma StopLeavesAlone(r: Responder, other: nat, ready: bool, s: PcbState, iface: nat)
    requires other != iface && s in {Off, Dup}
    ensures Alone(r, Stopped(r, other, ready, s), iface)
  {
    hide Cleared, Of, SameButMarks, Alone;
    OfCleared(r.queue, other, iface);
    SameIsAlone(r, Stopped(r, other, ready, s), iface);
  }

  lemma RemovalLeavesAlone(r: Responder, drop: set<nat>, settled: set<nat>, iface: nat)
    requires iface !in settled && forall p | p in Of(r.queue, iface) :: p.id !in drop
    ensures Alone(r, ServiceRemoved(r, drop, settled), iface)
  {
    hide Without, Of, SameButMarks, Alone;
    OfWithout(r.queue, drop, iface);
    SameIsAlone(r, ServiceRemoved(r, drop, settled), iface);
  }

  // ---- Transmissions ----

  /** A transmission on another interface. */
  lemma OthersHandled(r: Responder, p: Packet, built: bool, iface: nat)
    requires p.iface != iface
    ensures var r' := Handled(r, p, built);
            && Of(r'.queue, iface) == Of(r.queue, iface) && PcbOf(r', iface) == PcbOf(r, iface)
            && r'.now == r.now && r'.actions == r.actions
  {
    hide Inserted, Of;
    var sent := p.(sentAt := p.sentAt + [r.now]);
    OfInserted(r.queue, sent.(sendAt := r.now + PROBE_INTERVAL), iface);
    OfInserted(r.queue, sent.(sendAt := r.now + ANNOUNCE_INTERVAL), iface);
    OfInserted(r.queue, Packet(r.nextId, p.iface, r.now + PROBE_INTERVAL, false, Announcement(sent.sentAt), []), iface);
  }

  lemma OtherActionLeavesAlone(r: Responder, built: bool, iface: nat)
    requires !Transmits(r, Action(built), iface)
    ensures Alone(r, ActionRun(r, built), iface) && Of(ActionRun(r, built).queue, iface) == Of(r.queue, iface)
    ensures ActionRun(r, built).now == r.now
    ensures r.actions != [] ==> ActionRun(r, built).actions == r.actions[1..]
  {
    hide Of, Handled, SameButMarks, Alone;
    var r' := ActionRun(r, built);
    if r.actions != [] && AtHead(r, r.actions[0]) {
      OfHead(r.queue, iface);
      assert [] + Of(r.queue[1..], iface) == Of(r.queue[1..], iface);
      OthersHandled(r.(queue := r.queue[1..], actions := r.actions[1..]), r.queue[0].(queued := false), built, iface);
    }
    SameIsAlone(r, r', iface);
  }

  lemma ProbeHandled(r: Responder, p: Packet, n: nat)
    requires n < 2 && PcbOf(r, p.iface).state == StateAfter(n) && Of(r.queue, p.iface) == []
    ensures var r', sent := Handled(r, p, true), p.(sentAt := p.sentAt + [r.now], sendAt := r.now + 250);
            Of(r'.queue, p.iface) == [sent] && PcbOf(r', p.iface).state == StateAfter(n + 1) && r'.now == r.now
  {
    hide Inserted, Of;
    OfInserted(r.queue, p.(sentAt := p.sentAt + [r.now], sendAt := r.now + 250), p.iface);
  }

  lemma LastProbeHandled(r: Responder, p: Packet)
    requires PcbOf(r, p.iface).state == Probe3 && Of(r.queue, p.iface) == []
    ensures var r' := Handled(r, p, true);
            var a := Packet(r.nextId, p.iface, r.now + 250, false, Announcement(p.sentAt + [r.now]), []);
            Of(r'.queue, p.iface) == [a] && PcbOf(r', p.iface).state == Announce1 && r'.now == r.now
  {
    hide Inserted, Of;
    var a := Packet(r.nextId, p.iface, r.now + 250, false, Announcement(p.sentAt + [r.now]), []);
    OfInserted(r.queue, a, p.iface);
  }

  lemma AnnouncementHandled(r: Responder, p: Packet, n: nat)
    requires 3 <= n < 5 && PcbOf(r, p.iface).state == StateAfter(n) && Of(r.queue, p.iface) == []
    ensures var r', sent := Handled(r, p, true), p.(sentAt := p.sentAt + [r.now], sendAt := r.now + 1000);
            Of(r'.queue, p.iface) == [sent] && PcbOf(r', p.iface).state == StateAfter(n + 1) && r'.now == r.now
  {
    hide Inserted, Of;
    OfInserted(r.queue, p.(sentAt := p.sentAt + [r.now], sendAt := r.now + 1000), p.iface);
  }

  lemma LastAnnouncementHandled(r: Responder, p: Packet)
    requires PcbOf(r, p.iface).state == Announce3 && Of(r.queue, p.iface) == []
    ensures var r' := Handled(r, p, true);
            Of(r'.queue, p.iface) == [] && PcbOf(r', p.iface).state == Running && r'.now == r.now
  {
    hide Inserted, Of;
  }

  /** What becomes of the interface and its packet, by the number of transmissions before. */
  lemma HandledOnCourse(r: Responder, p: Packet, iface: nat, first: nat, times: seq<nat>)
    requires |times| < 6 && Of(r.queue, iface) == [] && PcbOf(r, iface).state == StateAfter(|times|)
    requires RightPacket(p, iface, first, times, r.now) && !p.queued && r.now > DueAt(first, times, |times|)
    requires forall i | 0 <= i < |times| :: times[i] > DueAt(first, times, i)
    ensures OnCourse(Handled(r, p, true), iface, first, times + [r.now])
  {
    hide Inserted, Of, Handled, RightPacket, DueAt;
    LaterDue(first, times, r.now);
    NextIsRight(p, iface, first, times, r.now, r.nextId);
    if |times| < 2 {
      ProbeHandled(r, p, |times|);
    } else if |times| == 2 {
      LastProbeHandled(r, p);
    } else if |times| < 5 {
      AnnouncementHandled(r, p, |times|);
    } else {
      LastAnnouncementHandled(r, p);
    }
  }

  /** What is queued after a transmission is the right packet for the next one. */
  lemma NextIsRight(p: Packet, iface: nat, first: nat, times: seq<nat>, now: nat, id: nat)
    requires |times| < 5 ==> !p.queued
    requires |times| < 6 && RightPacket(p, iface, first, times, now)
    ensures p.iface == iface
    ensures var times', sent := times + [now], p.(sentAt := p.sentAt + [now]);
            && (|times| < 2 ==> RightPacket(sent.(sendAt := now + 250), iface, first, times', now))
            && (|times| == 2 ==> RightPacket(Packet(id, iface, now + 250, false, Announcement(sent.sentAt), []), iface,
                                             first, times', now))
            && (3 <= |times| < 5 ==> RightPacket(sent.(sendAt := now + 1000), iface, first, times', now))
  {
    var times' := times + [now];
    if |times| >= 3 {
      assert times'[..3] == times[..3] && times'[3..] == times[3..] + [now];
    } else if |times| == 2 {
      assert times'[..3] == times' && times'[3..] == [];
    }
  }

  lemma LaterDue(first: nat, times: seq<nat>, now: nat)
    requires |times| < 6 && now > DueAt(first, times, |times|)
    requires forall i | 0 <= i < |times| :: times[i] > DueAt(first, times, i)
    ensures forall i | 0 <= i < |times| + 1 :: (times + [now])[i] > DueAt(first, times + [now], i)
  {
  }

  lemma TransmissionOnCourse(r: Responder, iface: nat, first: nat, times: seq<nat>)
    requires OnCourse(r, iface, first, times) && Transmits(r, Action(true), iface)
    ensures |times| < 6 && OnCourse(ActionRun(r, true), iface, first, times + [r.now])
    ensures |times| < 5 ==> !Of(ActionRun(r, true).queue, iface)[0].queued
    ensures ActionRun(r, true).actions == r.actions[1..] && ActionRun(r, true).now == r.now
  {
    OfHead(r.queue, iface);
    var popped, p := r.(queue := r.queue[1..], actions := r.actions[1..]), r.queue[0].(queued := false);
    HandledKeepsActions(popped, p, true);
    hide Of, Handled, StateAfter, DueAt;
    HandledOnCourse(popped, p, iface, first, times);
    HandledUnmarked(popped, p, iface);
  }

  lemma HandledUnmarked(r: Responder, p: Packet, iface: nat)
    requires p.iface == iface && !p.queued && Of(r.queue, iface) == []
    ensures forall x | x in Of(Handled(r, p, true).queue, iface) :: !x.queued
    ensures Handled(r, p, true).now == r.now
  {
    hide Inserted, Of;
    var sent := p.(sentAt := p.sentAt + [r.now]);
    OfInserted(r.queue, sent.(sendAt := r.now + PROBE_INTERVAL), iface);
    OfInserted(r.queue, sent.(sendAt := r.now + ANNOUNCE_INTERVAL), iface);
    OfInserted(r.queue, Packet(r.nextId, iface, r.now + PROBE_INTERVAL, false, Announcement(sent.sentAt), []), iface);
  }

  /** Every undisturbed step keeps to the course, and only a transmission moves it on. */
  lemma StepOnCourse(r: Responder, step: Step, iface: nat, first: nat, times: seq<nat>)
    requires OnCourse(r, iface, first, times) && Undisturbed(r, step, iface) && Possible(step)
    ensures OnCourse(Next(r, step), iface, first, if Transmits(r, step, iface) then times + [r.now] else times)
  {
    hide OnCourse, Alone, TimerRun, ActionRun, ProbeInit, Announced, Responded, Stopped, ServiceRemoved, Of, Transmits;
    if Transmits(r, step, iface) {
      TransmitsIsAction(r, step, iface);
      TransmissionOnCourse(r, iface, first, times);
    } else {
      UndisturbedLeavesAlone(r, step, iface);
      AloneStaysOnCourse(r, Next(r, step), iface, first, times);
    }
  }

  lemma TransmitsIsAction(r: Responder, step: Step, iface: nat)
    requires Transmits(r, step, iface) && Undisturbed(r, step, iface)
    ensures step == Action(true)
  {
  }

  lemma UndisturbedLeavesAlone(r: Responder, step: Step, iface: nat)
    requires Undisturbed(r, step, iface) && !Transmits(r, step, iface) && Possible(step)
    ensures Alone(r, Next(r, step), iface)
  {
    hide Alone, TimerRun, ActionRun, ProbeInit, Announced, Responded, Stopped, ServiceRemoved, Of, Transmits;
    match step
    case Elapse(ms) => SameIsAlone(r, r.(now := r.now + ms), iface);
    case Timer(outcomes) => TimerLeavesAlone(r, outcomes, iface);
    case Action(built) => OtherActionLeavesAlone(r, true, iface);
    case InitProbe(other, hasHost, built, jitter) => ProbeInitLeavesAlone(r, other, hasHost, built, jitter, iface);
    case Announce(other, hasHost, built, jitter) => AnnounceLeavesAlone(r, other, hasHost, built, jitter, iface);
    case Respond(other, share) => RespondLeavesAlone(r, other, share, iface);
    case FailProbe(other) => SameIsAlone(r, ProbeFailed(r, other), iface);
    case Stop(other, ready, s) => StopLeavesAlone(r, other, ready, s, iface);
    case RemoveService(drop, settled) => RemovalLeavesAlone(r, drop, settled, iface);
  }

  // ---- The whole course ----

  /** Probing starts with no transmission, the first one due after 120 to 247 ms, or
      1000 to 1127 ms if probing has failed more than five times. */
  lemma CourseStarts(r: Responder, iface: nat, jitter: nat)
    ensures var wait := if PcbOf(r, iface).failedProbes > 5 then 1000 else 120;
            OnCourse(ProbeInit(r, iface, true, true, jitter), iface, r.now + wait + jitter % 128, [])
  {
    hide Cleared, Inserted, Of;
    var first := r.now + ProbeDelay(PcbOf(r, iface).failedProbes, jitter);
    OfCleared(r.queue, iface, iface);
    OfInserted(Cleared(r.queue, iface), Packet(r.nextId, iface, first, false, Probe, []), iface);
  }

  /** When packets of the interface are transmitted by steps m to n of a run. */
  function Transmissions(steps: seq<Step>, m: nat, n: nat, iface: nat): seq<nat>
    requires Run(steps) && m <= n <= |steps|
  {
    if m == n then [] else
    Transmissions(steps, m, n - 1, iface)
      + if Transmits(After(steps, n - 1), steps[n - 1], iface) then [After(steps, n - 1).now] else []
  }

  /** In every run, from a start of probing on and as long as the interface is left
      alone: it probes until the third transmission, announces until the sixth and
      then runs, with one packet until then and none after, each transmission
      250, 250, 250, 1000 and 1000 ms or more after the one before. */
  lemma {:induction false} CourseIsExact(steps: seq<Step>, m: nat, n: nat, iface: nat, jitter: nat)
    requires Run(steps) && m < n <= |steps| && steps[m] == InitProbe(iface, true, true, jitter)
    requires forall i | m < i < n :: Undisturbed(After(steps, i), steps[i], iface)
    ensures var r := After(steps, m);
            var wait := if PcbOf(r, iface).failedProbes > 5 then 1000 else 120;
            OnCourse(After(steps, n), iface, r.now + wait + jitter % 128, Transmissions(steps, m + 1, n, iface))
    decreases n
  {
    hide OnCourse, Undisturbed, Transmits, ProbeInit;
    AfterNext(steps, n - 1);
    var r := After(steps, m);
    var wait := if PcbOf(r, iface).failedProbes > 5 then 1000 else 120;
    if n == m + 1 {
      CourseStarts(r, iface, jitter);
    } else {
      CourseIsExact(steps, m, n - 1, iface, jitter);
      var times := Transmissions(steps, m + 1, n - 1, iface);
      hide Next, After;
      StepOnCourse(After(steps, n - 1), steps[n - 1], iface, r.now + wait + jitter % 128, times);
      assert times + [] == times;
    }
  }

  // ---- Nothing more is needed ----

  /** A run of the timer with room in the action queue marks everything overdue. */
  lemma {:induction false} AllHandedOver(r: Responder, k: nat) returns (k': nat)
    requires Consistent(r, k)
    ensures var r' := HandedOver(r, k, []);
            Consistent(r', k') && (k' < |r'.queue| ==> r'.queue[k'].sendAt >= r'.now)
    decreases |r.queue| - k
  {
    k' := k;
    if k < |r.queue| && r.queue[k].sendAt < r.now {
      var marked := r.(queue := r.queue[k := r.queue[k].(queued := true)], actions := r.actions + [r.queue[k].id]);
      MarkedConsistent(r, k);
      k' := AllHandedOver(marked, k + 1);
    }
  }

  /** One round: time passes, the timer runs, and the service task works off what is pending. */
  function Round(r: Responder, ms: nat): Responder {
    var timed := TimerRun(r.(now := r.now + ms), []);
    WorkedOff(timed, Built(|timed.actions|))
  }

  function Built(n: nat): (built: seq<bool>)
    ensures |built| == n && AllBuilt(built)
  {
    seq(n, _ => true)
  }

  predicate AllBuilt(built: seq<bool>) {
    forall i | 0 <= i < |built| :: built[i]
  }

  lemma OverdueMarked(r: Responder, k: nat, iface: nat)
    requires Consistent(r, k) && (k < |r.queue| ==> r.queue[k].sendAt >= r.now)
    ensures forall p | p in Of(r.queue, iface) && p.sendAt < r.now :: p.queued
  {
    OfMembers(r.queue, iface);
  }

  lemma {:induction false} WorkedOffTransmits(r: Responder, iface: nat, first: nat, times: seq<nat>, built: seq<bool>)
    requires OnCourse(r, iface, first, times) && |times| < 6
    requires Of(r.queue, iface) != [] && Of(r.queue, iface)[0].queued
    requires HoldsTogether(r) && |built| == |r.actions| && AllBuilt(built)
    ensures OnCourse(WorkedOff(r, built), iface, first, times + [r.now]) && HoldsTogether(WorkedOff(r, built))
    ensures WorkedOff(r, built).now == r.now
    decreases |r.actions|
  {
    hide OnCourse, ActionRun, Transmits, Undisturbed;
    if r.actions == [] {
      NothingMarked(r, iface);
      assert false;
    } else {
      HoldsOn(r);
      if Transmits(r, Action(true), iface) {
        TransmissionOnCourse(r, iface, first, times);
        WorkedOffRests(ActionRun(r, true), iface, first, times + [r.now], built[1..]);
      } else {
        OtherActionLeavesAlone(r, true, iface);
        AloneStaysOnCourse(r, ActionRun(r, true), iface, first, times);
        assert Of(ActionRun(r, true).queue, iface) == Of(r.queue, iface);
        WorkedOffTransmits(ActionRun(r, true), iface, first, times, built[1..]);
      }
    }
  }

  /** With nothing pending, no packet is marked. */
  lemma NothingMarked(r: Responder, iface: nat)
    requires HoldsTogether(r) && r.actions == []
    ensures Of(r.queue, iface) != [] ==> !Of(r.queue, iface)[0].queued
  {
    var k: nat :| Consistent(r, k);
    OfMembers(r.queue, iface);
    assert |Ids(r.queue[..k])| == k == 0;
    assert Of(r.queue, iface) != [] ==> Of(r.queue, iface)[0] in Of(r.queue, iface);
  }

  lemma HoldsOn(r: Responder)
    requires HoldsTogether(r)
    ensures HoldsTogether(ActionRun(r, true))
  {
    var k: nat :| Consistent(r, k);
    var k' := ActionConsistent(r, k, true);
  }

  /** Once the packet has been sent it is not marked, so the rest of the round leaves the interface alone. */
  lemma {:induction false} WorkedOffRests(r: Responder, iface: nat, first: nat, times: seq<nat>, built: seq<bool>)
    requires OnCourse(r, iface, first, times) && (|times| < 6 ==> !Of(r.queue, iface)[0].queued)
    requires HoldsTogether(r) && |built| == |r.actions| && AllBuilt(built)
    ensures OnCourse(WorkedOff(r, built), iface, first, times) && HoldsTogether(WorkedOff(r, built))
    ensures WorkedOff(r, built).now == r.now
    decreases |r.actions|
  {
    hide ActionRun, Undisturbed, DueAt, StateAfter, RightPacket;
    if r.actions != [] {
      HoldsOn(r);
      if Transmits(r, Action(true), iface) {
        OfHead(r.queue, iface);
        assert false;
      }
      hide OnCourse, Transmits;
      OtherActionLeavesAlone(r, true, iface);
      AloneStaysOnCourse(r, ActionRun(r, true), iface, first, times);
      WorkedOffRests(ActionRun(r, true), iface, first, times, built[1..]);
    }
  }

  /** After the timer has run on time, the packet is marked. */
  lemma TimerMarks(r: Responder, iface: nat, first: nat, times: seq<nat>)
    requires OnCourse(r, iface, first, times) && |times| < 6 && HoldsTogether(r)
    requires r.now > DueAt(first, times, |times|)
    ensures var timed := TimerRun(r, []);
            && OnCourse(timed, iface, first, times) && HoldsTogether(timed)
            && Of(timed.queue, iface) != [] && Of(timed.queue, iface)[0].queued
  {
    var k: nat :| Consistent(r, k);
    FirstUnqueuedIs(r.queue, k, r.now, 0);
    var timed := TimerRun(r, []);
    var k' := AllHandedOver(r, k);
    OverdueMarked(timed, k', iface);
    HoldsAt(timed, k');
    TimerKeepsTime(r);
    hide Consistent, Alone, TimerRun, Of, DueAt, StateAfter, HoldsTogether;
    TimerLeavesAlone(r, [], iface);
    AloneStaysOnCourse(r, timed, iface, first, times);
    assert Of(timed.queue, iface)[0] in Of(timed.queue, iface);
  }

  lemma WaitOnCourse(r: Responder, iface: nat, first: nat, times: seq<nat>, ms: nat)
    requires OnCourse(r, iface, first, times) && HoldsTogether(r)
    ensures OnCourse(r.(now := r.now + ms), iface, first, times) && HoldsTogether(r.(now := r.now + ms))
  {
    hide OnCourse, Alone;
    SameIsAlone(r, r.(now := r.now + ms), iface);
    AloneStaysOnCourse(r, r.(now := r.now + ms), iface, first, times);
    var k: nat :| Consistent(r, k);
    OnlyQueueMatters(r, k, r.pcbs, r.now + ms);
    HoldsAt(r.(now := r.now + ms), k);
  }

  /** Once the next transmission is overdue, one round makes it, and no other one. */
  lemma RoundTransmits(r: Responder, iface: nat, first: nat, times: seq<nat>, ms: nat)
    requires OnCourse(r, iface, first, times) && |times| < 6 && HoldsTogether(r)
    requires r.now + ms > DueAt(first, times, |times|)
    ensures OnCourse(Round(r, ms), iface, first, times + [r.now + ms]) && HoldsTogether(Round(r, ms))
    ensures Round(r, ms).now == r.now + ms
  {
    hide OnCourse, HoldsTogether, TimerRun, WorkedOff, DueAt, Of, Built, AllBuilt, Round;
    var later := r.(now := r.now + ms);
    var timed := TimerRun(later, []);
    RoundIs(r, ms);
    WaitOnCourse(r, iface, first, times, ms);
    TimerMarks(later, iface, first, times);
    TimerKeepsTime(later);
    WorkedOffTransmits(timed, iface, first, times, Built(|timed.actions|));
  }

  lemma RoundIs(r: Responder, ms: nat)
    ensures var timed := TimerRun(r.(now := r.now + ms), []); Round(r, ms) == WorkedOff(timed, Built(|timed.actions|))
  {
    hide TimerRun, WorkedOff, Built;
  }

  lemma TimerKeepsTime(r: Responder)
    ensures TimerRun(r, []).now == r.now
  {
    HandingOverMarks(r, FirstUnqueued(r.queue, 0), []);
  }

  /** Rounds one after another. */
  function Rounds(r: Responder, waits: seq<nat>): Responder {
    if waits == [] then r else Round(Rounds(r, waits[..|waits| - 1]), waits[|waits| - 1])
  }

  /** Long enough for every transmission of the course. */
  predicate LongEnough(waits: seq<nat>) {
    |waits| <= 6 && forall i | 0 <= i < |waits| :: waits[i] > [1127, 250, 250, 250, 1000, 1000][i]
  }

  lemma {:induction false} RoundsOnCourse(r: Responder, iface: nat, jitter: nat, waits: seq<nat>)
    returns (first: nat, times: seq<nat>)
    requires HoldsTogether(r) && LongEnough(waits)
    ensures var r' := Rounds(ProbeInit(r, iface, true, true, jitter), waits);
            && |times| == |waits| && OnCourse(r', iface, first, times) && HoldsTogether(r')
            && (if waits == [] then first <= r'.now + 1127 else r'.now == times[|times| - 1])
  {
    if waits == [] {
      first, times := r.now + ProbeDelay(PcbOf(r, iface).failedProbes, jitter), [];
      CourseStarts(r, iface, jitter);
      var k: nat :| Consistent(r, k);
      var k' := ProbeInitConsistent(r, k, iface, true, true, jitter);
    } else {
      hide OnCourse, Round, HoldsTogether, ProbeInit;
      var front, last := waits[..|waits| - 1], waits[|waits| - 1];
      first, times := RoundsOnCourse(r, iface, jitter, front);
      var before := Rounds(ProbeInit(r, iface, true, true, jitter), front);
      assert before.now + last > DueAt(first, times, |times|);
      RoundTransmits(before, iface, first, times, last);
      times := times + [before.now + last];
    }
  }

  /** From any consistent state, six rounds with enough time in between take an
      interface from the start of probing to running, with nothing left to send;
      after three of them it announces. */
  lemma ReachesRunning(r: Responder, iface: nat, jitter: nat, waits: seq<nat>)
    requires HoldsTogether(r) && LongEnough(waits)
    ensures var r' := Rounds(ProbeInit(r, iface, true, true, jitter), waits);
            && (|waits| < 3 ==> PcbOf(r', iface).state in {Probe1, Probe2, Probe3})
            && (3 <= |waits| < 6 ==> PcbOf(r', iface).state in {Announce1, Announce2, Announce3})
            && (|waits| == 6 ==> PcbOf(r', iface).state == Running && Of(r'.queue, iface) == [])
  {
    var first, times := RoundsOnCourse(r, iface, jitter, waits);
    hide Rounds, ProbeInit, Of, HoldsTogether;
  }
}
