/** Probing before announcing, section 8.1 of RFC 6762: one probe packet at a
    time, three transmissions spaced by more than 250 ms, and a fresh start
    whenever probing is initialised again. */
module MdnsProbing {
  import opened MdnsQueue
  import opened MdnsResponder

  function Count(q: seq<Packet>, iface: nat): nat {
    if q == [] then 0 else Count(q[..|q| - 1], iface) + if q[|q| - 1].iface == iface then 1 else 0
  }

  /** Each transmission comes more than 250 ms after the one before. */
  predicate Spaced(times: seq<nat>) {
    forall i | 0 < i < |times| :: times[i] > times[i - 1] + 250
  }

  predicate SendsProbes(s: PcbState) { s in {Probe1, Probe2, Probe3} }

  /** Transmissions a probe must have behind it in this state. */
  function Behind(s: PcbState): nat
    requires SendsProbes(s)
  {
    if s == Probe1 then 0 else if s == Probe2 then 1 else 2
  }

  predicate GoodProbe(p: Packet, s: PcbState) {
    SendsProbes(s) ==>
      && p.kind == Probe && Spaced(p.sentAt) && |p.sentAt| >= Behind(s)
      && (p.sentAt != [] ==> p.sendAt >= p.sentAt[|p.sentAt| - 1] + PROBE_INTERVAL)
  }

  /** Marked packets are overdue, and an announcement made from a probe has at
      least three spaced transmissions of it behind it. */
  predicate GoodPacket(p: Packet, now: nat) {
    && (p.queued ==> p.sendAt < now)
    && (p.kind.Announcement? ==> |p.kind.probes| >= 3 && Spaced(p.kind.probes))
  }

  predicate Fits(p: Packet, now: nat, s: PcbState) {
    GoodPacket(p, now) && GoodProbe(p, s)
  }

  predicate AllFit(r: Responder) {
    forall p | p in r.queue :: Fits(p, r.now, PcbOf(r, p.iface).state)
  }

  ghost predicate OneAtATime(r: Responder) {
    forall iface :: SendsProbes(PcbOf(r, iface).state) ==> Count(r.queue, iface) <= 1
  }

  ghost predicate Probing(r: Responder) {
    AllFit(r) && OneAtATime(r)
  }

  // ---- Counting ----

  lemma {:induction false} CountAppend(x: seq<Packet>, y: seq<Packet>, iface: nat)
    ensures Count(x + y, iface) == Count(x, iface) + Count(y, iface)
  {
    if y == [] {
      assert x + y == x;
    } else {
      assert (x + y)[..|x + y| - 1] == x + y[..|y| - 1];
      CountAppend(x, y[..|y| - 1], iface);
    }
  }

  lemma CountOne(p: Packet, iface: nat)
    ensures Count([p], iface) == if p.iface == iface then 1 else 0
  {
    assert [p][..0] == [];
  }

  lemma InsertedContent(q: seq<Packet>, p: Packet, iface: nat)
    ensures Count(Inserted(q, p), iface) == Count(q, iface) + if p.iface == iface then 1 else 0
    ensures forall x | x in Inserted(q, p) :: x in q || x == p
  {
    var at := Position(q, p.sendAt, 0);
    CountAppend(q[..at], [p], iface);
    CountAppend(q[..at] + [p], q[at..], iface);
    CountAppend(q[..at], q[at..], iface);
    assert q[..at] + q[at..] == q;
    CountOne(p, iface);
  }

  lemma HeadContent(q: seq<Packet>, iface: nat)
    requires q != []
    ensures Count(q[1..], iface) == Count(q, iface) - if q[0].iface == iface then 1 else 0
    ensures forall x | x in q[1..] :: x in q
  {
    assert q == [q[0]] + q[1..];
    CountAppend([q[0]], q[1..], iface);
    CountOne(q[0], iface);
  }

  lemma {:induction false} ClearedCount(q: seq<Packet>, cleared: nat, iface: nat)
    ensures Count(Cleared(q, cleared), iface) == if iface == cleared then 0 else Count(q, iface)
  {
    if q != [] {
      var front, last := q[..|q| - 1], q[|q| - 1];
      ClearedCount(front, cleared, iface);
      CountAppend(Cleared(front, cleared), [last], iface);
      CountOne(last, iface);
    }
  }

  lemma {:induction false} ClearedMembers(q: seq<Packet>, cleared: nat)
    ensures forall x | x in Cleared(q, cleared) :: x in q && x.iface != cleared
  {
    if q != [] {
      ClearedMembers(q[..|q| - 1], cleared);
    }
  }

  lemma {:induction false} WithoutContent(q: seq<Packet>, drop: set<nat>, iface: nat)
    ensures Count(Without(q, drop), iface) <= Count(q, iface)
    ensures forall x | x in Without(q, drop) :: x in q
  {
    if q != [] {
      WithoutContent(q[..|q| - 1], drop, iface);
    }
  }

  lemma {:induction false} NoneCounted(q: seq<Packet>, iface: nat)
    ensures Count(q, iface) == 0 ==> forall x | x in q :: x.iface != iface
  {
    if q != [] {
      NoneCounted(q[..|q| - 1], iface);
      assert q == q[..|q| - 1] + [q[|q| - 1]];
    }
  }

  // ---- Handing over only marks ----

  predicate SameButMarks(q: seq<Packet>, q': seq<Packet>) {
    |q| == |q'| && forall i | 0 <= i < |q| :: q'[i] == q[i].(queued := q'[i].queued)
  }

  lemma {:induction false} HandingOverMarks(r: Responder, i: nat, outcomes: seq<Push>)
    requires i <= |r.queue|
    ensures var r' := HandedOver(r, i, outcomes);
            && r' == r.(queue := r'.queue, actions := r'.actions) && SameButMarks(r.queue, r'.queue)
            && forall j | 0 <= j < |r.queue| && r'.queue[j].queued :: r.queue[j].queued || r.queue[j].sendAt < r.now
    decreases |r.queue| - i
  {
    if i < |r.queue| && r.queue[i].sendAt < r.now {
      var rest := if outcomes == [] then [] else outcomes[1..];
      if outcomes == [] || outcomes[0] == Pushed {
        HandingOverMarks(r.(queue := r.queue[i := r.queue[i].(queued := true)], actions := r.actions + [r.queue[i].id]),
                         i + 1, rest);
      } else if outcomes[0] == QueueFull {
        HandingOverMarks(r.(queue := r.queue[i := r.queue[i].(queued := false)]), i + 1, rest);
      }
    }
  }

  lemma {:induction false} MarksDoNotCount(q: seq<Packet>, q': seq<Packet>, iface: nat)
    requires SameButMarks(q, q')
    ensures Count(q, iface) == Count(q', iface)
  {
    if q != [] {
      MarksDoNotCount(q[..|q| - 1], q'[..|q| - 1], iface);
    }
  }

  lemma MarkedFits(p: Packet, queued: bool, now: nat, s: PcbState)
    requires Fits(p, now, s) && (queued ==> p.queued || p.sendAt < now)
    ensures Fits(p.(queued := queued), now, s)
  {
  }

  lemma TimerProbing(r: Responder, outcomes: seq<Push>)
    requires Probing(r)
    ensures Probing(TimerRun(r, outcomes))
  {
    var r' := TimerRun(r, outcomes);
    HandingOverMarks(r, FirstUnqueued(r.queue, 0), outcomes);
    hide GoodProbe, HandedOver;
    forall p | p in r'.queue ensures Fits(p, r.now, PcbOf(r, p.iface).state) {
      var i :| 0 <= i < |r'.queue| && r'.queue[i] == p;
      MarkedFits(r.queue[i], p.queued, r.now, PcbOf(r, p.iface).state);
    }
    forall iface ensures Count(r'.queue, iface) == Count(r.queue, iface) {
      MarksDoNotCount(r.queue, r'.queue, iface);
    }
  }

  // ---- A transmission ----

  /** A sent probe is still spaced, and due again 250 ms later. */
  lemma SentProbe(p: Packet, s: PcbState, now: nat)
    requires SendsProbes(s) && GoodProbe(p, s) && p.sendAt < now
    ensures var sent := p.(queued := false, sentAt := p.sentAt + [now], sendAt := now + PROBE_INTERVAL);
            && GoodProbe(sent, s) && |sent.sentAt| >= Behind(s) + 1 && (s != Probe3 ==> GoodProbe(sent, NextState(s)))
  {
  }

  /** Taking the head out keeps everything, and of an interface that sends probes nothing is left. */
  lemma PoppedProbing(r: Responder)
    requires Probing(r) && r.queue != []
    ensures Probing(r.(queue := r.queue[1..], actions := if r.actions == [] then [] else r.actions[1..]))
    ensures SendsProbes(PcbOf(r, r.queue[0].iface).state) ==> Count(r.queue[1..], r.queue[0].iface) == 0
  {
    hide Fits;
    forall iface
      ensures Count(r.queue[1..], iface) == Count(r.queue, iface) - if r.queue[0].iface == iface then 1 else 0
    {
      HeadContent(r.queue, iface);
    }
    assert forall x | x in r.queue[1..] :: x in r.queue;
  }

  lemma AddedFits(r: Responder, p: Packet, r': Responder)
    requires AllFit(r) && Fits(p, r.now, PcbOf(r', p.iface).state) && r'.now == r.now
    requires r'.queue == Inserted(r.queue, p)
    requires forall x | x in r.queue ::
               PcbOf(r', x.iface).state == PcbOf(r, x.iface).state || !SendsProbes(PcbOf(r', x.iface).state)
    ensures AllFit(r')
  {
    InsertedContent(r.queue, p, p.iface);
    hide Inserted, GoodPacket;
    forall x | x in r'.queue ensures Fits(x, r.now, PcbOf(r', x.iface).state) {
      if x != p {
        assert x in r.queue;
      }
    }
  }

  lemma AddedOnce(r: Responder, p: Packet, r': Responder)
    requires OneAtATime(r) && r'.queue == Inserted(r.queue, p)
    requires forall iface :: iface != p.iface ==> PcbOf(r', iface).state == PcbOf(r, iface).state
    requires SendsProbes(PcbOf(r', p.iface).state) ==> Count(r.queue, p.iface) == 0
    ensures OneAtATime(r')
  {
    hide Inserted;
    forall iface | SendsProbes(PcbOf(r', iface).state) ensures Count(r'.queue, iface) <= 1 {
      InsertedContent(r.queue, p, iface);
    }
  }

  /** Adding a packet that fits the new state of its interface. */
  lemma AddedProbing(r: Responder, p: Packet, ms: nat, s: PcbState, failedProbes: nat)
    requires Probing(r)
    requires SendsProbes(s) ==> Count(r.queue, p.iface) == 0
    requires Fits(p.(sendAt := r.now + ms), r.now, s)
    ensures Probing(SentAfter(r, p, ms).(pcbs := r.pcbs[p.iface := Pcb(s, failedProbes)]))
  {
    var p' := p.(sendAt := r.now + ms);
    var r' := SentAfter(r, p, ms).(pcbs := r.pcbs[p.iface := Pcb(s, failedProbes)]);
    NoneCounted(r.queue, p.iface);
    hide Fits, Inserted, AllFit, OneAtATime;
    AddedFits(r, p', r');
    AddedOnce(r, p', r');
  }

  lemma StateProbing(r: Responder, iface: nat, pcb: Pcb)
    requires Probing(r) && (SendsProbes(pcb.state) ==> pcb.state == PcbOf(r, iface).state)
    ensures Probing(r.(pcbs := r.pcbs[iface := pcb]))
  {
    var r' := r.(pcbs := r.pcbs[iface := pcb]);
    hide GoodPacket;
    forall x | x in r.queue ensures Fits(x, r.now, PcbOf(r', x.iface).state) {
      assert Fits(x, r.now, PcbOf(r, x.iface).state);
    }
  }

  /** A transmission keeps a packet fit for what it becomes. */
  lemma SentFits(p: Packet, s: PcbState, now: nat, id: nat)
    requires Fits(p, now, s) && p.sendAt < now
    ensures var sent := p.(queued := false, sentAt := p.sentAt + [now], sendAt := now + PROBE_INTERVAL);
            && Fits(sent, now, s)
            && (s in {Probe1, Probe2} ==> Fits(sent, now, NextState(s)))
            && (s == Probe3 ==>
                  Fits(Packet(id, p.iface, now + PROBE_INTERVAL, false, Announcement(sent.sentAt), []), now, Announce1))
    ensures s in {Announce1, Announce2} ==>
              Fits(p.(queued := false, sentAt := p.sentAt + [now], sendAt := now + ANNOUNCE_INTERVAL), now,
                   NextState(s))
  {
    if SendsProbes(s) {
      SentProbe(p, s, now);
    }
    hide Spaced;
  }

  lemma LastProbeProbing(r: Responder, p: Packet, built: bool)
    requires Probing(r) && PcbOf(r, p.iface).state == Probe3 && Count(r.queue, p.iface) == 0
    requires Fits(p.(sendAt := r.now + PROBE_INTERVAL), r.now, Probe3)
    requires Fits(Packet(r.nextId, p.iface, r.now + PROBE_INTERVAL, false, Announcement(p.sentAt), []), r.now,
                  Announce1)
    ensures Probing(Rescheduled(r, p, built))
  {
    hide Probing, Fits, Inserted, Count;
    if built {
      NumberProbing(r);
      AddedProbing(r.(nextId := r.nextId + 1), Packet(r.nextId, p.iface, 0, false, Announcement(p.sentAt), []),
                   PROBE_INTERVAL, Announce1, 0);
      assert r.pcbs[p.iface := Pcb(Probe3, 0)][p.iface := Pcb(Announce1, 0)] == r.pcbs[p.iface := Pcb(Announce1, 0)];
    } else {
      AddedProbing(r, p, PROBE_INTERVAL, Probe3, PcbOf(r, p.iface).failedProbes);
      assert r.pcbs == r.pcbs[p.iface := PcbOf(r, p.iface)];
    }
  }

  lemma HandledProbing(r: Responder, p: Packet, built: bool)
    requires Probing(r) && !p.queued && p.sendAt < r.now && Fits(p, r.now, PcbOf(r, p.iface).state)
    requires SendsProbes(PcbOf(r, p.iface).state) ==> Count(r.queue, p.iface) == 0
    ensures Probing(Handled(r, p, built))
  {
    var pcb := PcbOf(r, p.iface);
    var s, sent := pcb.state, p.(sentAt := p.sentAt + [r.now]);
    SentFits(p, s, r.now, r.nextId);
    hide Probing, Fits, Inserted, Count;
    if s in {Probe1, Probe2} {
      AddedProbing(r, sent, PROBE_INTERVAL, NextState(s), pcb.failedProbes);
    } else if s == Probe3 {
      LastProbeProbing(r, sent, built);
    } else if s in {Announce1, Announce2} {
      AddedProbing(r, sent, ANNOUNCE_INTERVAL, NextState(s), pcb.failedProbes);
    } else if s == Announce3 {
      StateProbing(r, p.iface, pcb.(state := Running));
    }
  }

  lemma NumberProbing(r: Responder)
    requires Probing(r)
    ensures Probing(r.(nextId := r.nextId + 1))
  {
    hide Fits;
  }

  lemma ActionProbing(r: Responder, built: bool)
    requires Probing(r)
    ensures Probing(ActionRun(r, built))
  {
    if r.actions != [] {
      if AtHead(r, r.actions[0]) {
        var p := r.queue[0];
        assert p in r.queue;
        assert Fits(p, r.now, PcbOf(r, p.iface).state) && p.sendAt < r.now;
        MarkedFits(p, false, r.now, PcbOf(r, p.iface).state);
        PoppedProbing(r);
        hide Probing, Fits, Handled;
        HandledProbing(r.(queue := r.queue[1..], actions := r.actions[1..]), p.(queued := false), built);
      } else {
        assert AllFit(r.(actions := r.actions[1..])) by { hide Fits; }
      }
    }
  }

  // ---- The other steps ----

  /** Whenever probing is initialised, what was queued for the interface goes, and
      the count of transmissions starts from zero. */
  lemma ProbeInitStartsOver(r: Responder, iface: nat, jitter: nat)
    ensures var r' := ProbeInit(r, iface, true, true, jitter);
            && PcbOf(r', iface).state == Probe1 && Count(r'.queue, iface) == 1
            && forall p | p in r'.queue && p.iface == iface :: p.kind == Probe && p.sentAt == [] && p.id == r.nextId
  {
    hide Inserted, Cleared, ProbeDelay, Count;
    var cleared, delay := Cleared(r.queue, iface), ProbeDelay(PcbOf(r, iface).failedProbes, jitter);
    var p := Packet(r.nextId, iface, r.now + delay, false, Probe, []);
    var r' := ProbeInit(r, iface, true, true, jitter);
    assert r'.queue == Inserted(cleared, p) && PcbOf(r', iface).state == Probe1;
    hide ProbeInit;
    ClearedCount(r.queue, iface, iface);
    ClearedMembers(r.queue, iface);
    InsertedContent(cleared, p, iface);
  }

  lemma ClearedProbing(r: Responder, iface: nat)
    requires Probing(r)
    ensures Probing(r.(queue := Cleared(r.queue, iface))) && Count(Cleared(r.queue, iface), iface) == 0
  {
    hide Fits;
    ClearedMembers(r.queue, iface);
    forall i ensures Count(Cleared(r.queue, iface), i) == if i == iface then 0 else Count(r.queue, i) {
      ClearedCount(r.queue, iface, i);
    }
  }

  lemma ProbeInitProbing(r: Responder, iface: nat, hasHost: bool, built: bool, jitter: nat)
    requires Probing(r)
    ensures Probing(ProbeInit(r, iface, hasHost, built, jitter))
  {
    hide AllFit, OneAtATime, Inserted, Cleared, ProbeDelay, Spaced;
    ClearedProbing(r, iface);
    var cleared, pcb := r.(queue := Cleared(r.queue, iface)), PcbOf(r, iface);
    if !hasHost {
      StateProbing(cleared, iface, pcb.(state := Running));
    } else if built {
      NumberProbing(cleared);
      var p, delay := Packet(r.nextId, iface, 0, false, Probe, []), ProbeDelay(pcb.failedProbes, jitter);
      FreshProbeFits(p, r.now, delay);
      hide Fits;
      AddedProbing(cleared.(nextId := r.nextId + 1), p, delay, Probe1, pcb.failedProbes);
    }
  }

  lemma FreshProbeFits(p: Packet, now: nat, delay: nat)
    requires p.kind == Probe && p.sentAt == [] && !p.queued
    ensures Fits(p.(sendAt := now + delay), now, Probe1)
  {
  }

  lemma OtherFits(p: Packet, now: nat, s: PcbState)
    requires p.kind == Other && p.sentAt == [] && !p.queued && !SendsProbes(s)
    ensures Fits(p, now, s)
  {
  }

  lemma AnnouncedProbing(r: Responder, iface: nat, hasHost: bool, built: bool, jitter: nat)
    requires Probing(r)
    ensures Probing(Announced(r, iface, hasHost, built, jitter))
  {
    hide Probing, Fits, Inserted, ProbeInit, HasPacket;
    ProbeInitProbing(r, iface, hasHost, built, jitter);
    NumberProbing(r);
    var pcb, p := PcbOf(r, iface), Packet(r.nextId, iface, 0, false, Other, []);
    OtherFits(p.(sendAt := r.now), r.now, Announce1);
    StateProbing(r, iface, pcb.(state := Announce1));
    AddedProbing(r.(nextId := r.nextId + 1), p, 0, Announce1, pcb.failedProbes);
  }

  lemma RespondedProbing(r: Responder, iface: nat, share: nat)
    requires Probing(r)
    ensures Probing(Responded(r, iface, share))
  {
    NumberProbing(r);
    var pcb, p := PcbOf(r, iface), Packet(r.nextId, iface, 0, false, Other, []);
    var delay := 25 + 25 * (share % 4);
    if IsAfterProbing(pcb.state) {
      assert Fits(p.(sendAt := r.now + delay), r.now, pcb.state);
      assert r.pcbs == r.pcbs[iface := pcb];
      hide Probing, Fits, Inserted;
      AddedProbing(r.(nextId := r.nextId + 1), p, delay, pcb.state, pcb.failedProbes);
    }
  }

  lemma DroppedProbing(r: Responder, drop: set<nat>)
    requires Probing(r)
    ensures Probing(r.(queue := Without(r.queue, drop)))
  {
    hide Fits;
    WithoutContent(r.queue, drop, 0);
    forall i ensures Count(Without(r.queue, drop), i) <= Count(r.queue, i) {
      WithoutContent(r.queue, drop, i);
    }
  }

  lemma SettledProbing(r: Responder, pcbs: map<nat, Pcb>)
    requires Probing(r)
    requires forall iface :: SendsProbes(PcbOf(r.(pcbs := pcbs), iface).state) ==>
               PcbOf(r.(pcbs := pcbs), iface).state == PcbOf(r, iface).state
    ensures Probing(r.(pcbs := pcbs))
  {
    hide GoodPacket;
    forall x | x in r.queue ensures Fits(x, r.now, PcbOf(r.(pcbs := pcbs), x.iface).state) {
      assert Fits(x, r.now, PcbOf(r, x.iface).state);
    }
  }

  lemma ElapsedProbing(r: Responder, ms: nat)
    requires Probing(r)
    ensures Probing(r.(now := r.now + ms))
  {
    assert forall x | x in r.queue :: Fits(x, r.now, PcbOf(r, x.iface).state);
  }

  lemma StoppedProbing(r: Responder, iface: nat, ready: bool, s: PcbState)
    requires Probing(r) && s in {Off, Dup}
    ensures Probing(Stopped(r, iface, ready, s))
  {
    hide Probing, Cleared;
    ClearedProbing(r, iface);
    SettledProbing(if ready then r.(queue := Cleared(r.queue, iface)) else r, Stopped(r, iface, ready, s).pcbs);
  }

  lemma RemovedProbing(r: Responder, drop: set<nat>, settled: set<nat>)
    requires Probing(r)
    ensures Probing(ServiceRemoved(r, drop, settled))
  {
    hide Probing, Without;
    DroppedProbing(r, drop);
    SettledProbing(r.(queue := Without(r.queue, drop)), ServiceRemoved(r, drop, settled).pcbs);
  }

  lemma FailedProbing(r: Responder, iface: nat)
    requires Probing(r)
    ensures Probing(ProbeFailed(r, iface))
  {
    hide Probing;
    SettledProbing(r, ProbeFailed(r, iface).pcbs);
  }

  lemma EmptiedProbing(r: Responder)
    requires Probing(r)
    ensures Probing(r.(queue := []))
  {
  }

  lemma StepProbing(r: Responder, step: Step)
    requires Probing(r) && Possible(step)
    ensures Probing(Next(r, step))
  {
    hide Probing, TimerRun, ActionRun, ProbeInit, Announced, Responded, ProbeFailed, Stopped, ServiceRemoved;
    match step
    case Elapse(ms) => ElapsedProbing(r, ms);
    case Timer(outcomes) => TimerProbing(r, outcomes);
    case Action(built) => ActionProbing(r, built);
    case InitProbe(iface, hasHost, built, jitter) => ProbeInitProbing(r, iface, hasHost, built, jitter);
    case Announce(iface, hasHost, built, jitter) => AnnouncedProbing(r, iface, hasHost, built, jitter);
    case Respond(iface, share) => RespondedProbing(r, iface, share);
    case FailProbe(iface) => FailedProbing(r, iface);
    case Stop(iface, ready, s) => StoppedProbing(r, iface, ready, s);
    case RemoveService(drop, settled) => RemovedProbing(r, drop, settled);
    case ClearAll => EmptiedProbing(r);
  }

  // ---- Every run ----

  /** In every state of every run an interface that is probing has at most one packet queued. */
  lemma {:induction false} AlwaysProbing(steps: seq<Step>, n: nat)
    requires Run(steps) && n <= |steps|
    ensures Probing(After(steps, n))
    ensures forall iface ::
              SendsProbes(PcbOf(After(steps, n), iface).state) ==> Count(After(steps, n).queue, iface) <= 1
  {
    if n > 0 {
      AlwaysProbing(steps, n - 1);
      hide Next, AllFit, Count;
      StepProbing(After(steps, n - 1), steps[n - 1]);
    }
  }

  /** An interface goes from probing to announcing only by sending its probe, and
      the announcement is built from a probe that has by then been sent at least
      three times, each time more than 250 ms after the time before. */
  lemma AnnouncedAfterThreeProbes(steps: seq<Step>, n: nat, iface: nat) returns (a: Packet)
    requires Run(steps) && n < |steps|
    requires SendsProbes(PcbOf(After(steps, n), iface).state)
    requires IsAnnouncing(PcbOf(After(steps, n + 1), iface).state)
    ensures steps[n].Action? && a in After(steps, n + 1).queue && a.iface == iface && a.kind.Announcement?
    ensures |a.kind.probes| >= 3 && Spaced(a.kind.probes) && a.kind.probes[|a.kind.probes| - 1] == After(steps, n).now
  {
    var r, r' := After(steps, n), After(steps, n + 1);
    AlwaysProbing(steps, n);
    AlwaysProbing(steps, n + 1);
    assert r' == Next(r, steps[n]);
    a := BuiltAnnouncement(r, steps[n], iface);
    hide Next, Count;
    assert Fits(a, r'.now, PcbOf(r', a.iface).state);
  }

  lemma OnlyActionsAnnounce(r: Responder, step: Step, iface: nat)
    requires Possible(step) && !step.Action? && SendsProbes(PcbOf(r, iface).state)
    ensures !IsAnnouncing(PcbOf(Next(r, step), iface).state)
  {
    hide HandedOver, Inserted, Cleared, Without, ProbeDelay, HasPacket, FirstUnqueued;
    match step
    case Timer(outcomes) => HandingOverMarks(r, FirstUnqueued(r.queue, 0), outcomes);
    case InitProbe(other, hasHost, built, jitter) => ProbeInitAnnouncesNothing(r, other, hasHost, built, jitter, iface);
    case Announce(other, hasHost, built, jitter) => ProbeInitAnnouncesNothing(r, other, hasHost, built, jitter, iface);
    case _ =>
  }

  lemma ProbeInitAnnouncesNothing(r: Responder, other: nat, hasHost: bool, built: bool, jitter: nat, iface: nat)
    requires SendsProbes(PcbOf(r, iface).state)
    ensures !IsAnnouncing(PcbOf(ProbeInit(r, other, hasHost, built, jitter), iface).state)
  {
    hide Inserted, Cleared, ProbeDelay;
  }

  lemma BuiltAnnouncement(r: Responder, step: Step, iface: nat) returns (a: Packet)
    requires Possible(step) && SendsProbes(PcbOf(r, iface).state) && IsAnnouncing(PcbOf(Next(r, step), iface).state)
    ensures step.Action? && a in Next(r, step).queue && a.iface == iface && a.kind.Announcement?
    ensures a.kind.probes != [] && a.kind.probes[|a.kind.probes| - 1] == r.now
  {
    if !step.Action? {
      OnlyActionsAnnounce(r, step, iface);
    }
    assert r.actions != [] && AtHead(r, r.actions[0]);
    var p := r.queue[0].(queued := false);
    a := HandledAnnouncement(r.(queue := r.queue[1..], actions := r.actions[1..]), p, step.built, iface);
  }

  lemma HandledAnnouncement(r: Responder, p: Packet, built: bool, iface: nat) returns (a: Packet)
    requires SendsProbes(PcbOf(r, iface).state) && IsAnnouncing(PcbOf(Handled(r, p, built), iface).state)
    ensures a in Handled(r, p, built).queue && a.iface == iface && a.kind.Announcement?
    ensures a.kind.probes != [] && a.kind.probes[|a.kind.probes| - 1] == r.now
  {
    hide Inserted;
    a := Packet(r.nextId, iface, r.now + PROBE_INTERVAL, false, Announcement(p.sentAt + [r.now]), []);
    InsertedHas(r.queue, a);
  }

  lemma InsertedHas(q: seq<Packet>, p: Packet)
    ensures p in Inserted(q, p)
  {
    assert Inserted(q, p)[Position(q, p.sendAt, 0)] == p;
  }
}
