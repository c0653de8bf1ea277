/** The mDNS transmit queue and the probe/announce state of each interface: the
    state the two tasks share, every step that changes it, and the responder
    that carries them out. */
module MdnsResponder {
  datatype PcbState =
    | Off | Dup | Init
    | Probe1 | Probe2 | Probe3
    | Announce1 | Announce2 | Announce3
    | Running

  datatype Pcb = Pcb(state: PcbState, failedProbes: nat)

  /** What a packet was made as. The code does not look at this; an announcement
      remembers when the probe it was built from had been sent. */
  datatype Kind = Probe | Announcement(probes: seq<nat>) | Other

  /** Packets are told apart by `id`. `sentAt` is the history of transmissions, kept by the model only. */
  datatype Packet = Packet(id: nat, iface: nat, sendAt: nat, queued: bool, kind: Kind, sentAt: seq<nat>)

  /** `actions` are the transmissions handed to the service task, oldest first. */
  datatype Responder = Responder(queue: seq<Packet>, actions: seq<nat>, pcbs: map<nat, Pcb>, now: nat, nextId: nat)

  /** How handing over one transmission ends. */
  datatype Push = Pushed | QueueFull | NoMemory

  const PROBE_INTERVAL := 250
  const ANNOUNCE_INTERVAL := 1000

  // The code's test for probing takes in the two states before it.
  predicate IsProbing(s: PcbState) { s in {Dup, Init, Probe1, Probe2, Probe3} }

  predicate IsAnnouncing(s: PcbState) { s in {Announce1, Announce2, Announce3} }

  predicate IsAfterProbing(s: PcbState) { IsAnnouncing(s) || s == Running }

  function PcbOf(r: Responder, iface: nat): Pcb {
    if iface in r.pcbs then r.pcbs[iface] else Pcb(Off, 0)
  }

  function WithState(r: Responder, iface: nat, s: PcbState): Responder {
    r.(pcbs := r.pcbs[iface := PcbOf(r, iface).(state := s)])
  }

  // ---- The queue ----

  /** Where a packet due at `sendAt` goes: behind everything due no later, looking from index i on. */
  function Position(q: seq<Packet>, sendAt: nat, i: nat): (k: nat)
    requires i <= |q|
    ensures i <= k <= |q|
    decreases |q| - i
  {
    if i < |q| && q[i].sendAt <= sendAt then Position(q, sendAt, i + 1) else i
  }

  function Inserted(q: seq<Packet>, p: Packet): seq<Packet> {
    var k := Position(q, p.sendAt, 0);
    q[..k] + [p] + q[k..]
  }

  function SentAfter(r: Responder, p: Packet, ms: nat): Responder {
    r.(queue := Inserted(r.queue, p.(sendAt := r.now + ms)))
  }

  /** The queue without the packets of `drop`. */
  function Without(q: seq<Packet>, drop: set<nat>): (r: seq<Packet>) {
    if q == [] then []
    else if q[|q| - 1].id in drop then Without(q[..|q| - 1], drop)
    else Without(q[..|q| - 1], drop) + [q[|q| - 1]]
  }

  function Cleared(q: seq<Packet>, iface: nat): seq<Packet> {
    if q == [] then []
    else if q[|q| - 1].iface == iface then Cleared(q[..|q| - 1], iface)
    else Cleared(q[..|q| - 1], iface) + [q[|q| - 1]]
  }

  function FirstUnqueued(q: seq<Packet>, i: nat): (k: nat)
    requires i <= |q|
    ensures i <= k <= |q|
    decreases |q| - i
  {
    if i < |q| && q[i].queued then FirstUnqueued(q, i + 1) else i
  }

  /** From index i on, packets that are due are handed over one by one; `outcomes`
      says how each attempt ends, success when it is used up. */
  function HandedOver(r: Responder, i: nat, outcomes: seq<Push>): Responder
    requires i <= |r.queue|
    decreases |r.queue| - i
  {
    if i == |r.queue| || r.queue[i].sendAt >= r.now then r else
    var outcome, rest := if outcomes == [] then Pushed else outcomes[0], if outcomes == [] then [] else outcomes[1..];
    match outcome
    case NoMemory => r
    case QueueFull => HandedOver(r.(queue := r.queue[i := r.queue[i].(queued := false)]), i + 1, rest)
    case Pushed =>
      HandedOver(r.(queue := r.queue[i := r.queue[i].(queued := true)], actions := r.actions + [r.queue[i].id]),
                 i + 1, rest)
  }

  /** The timer task. */
  function TimerRun(r: Responder, outcomes: seq<Push>): Responder {
    HandedOver(r, FirstUnqueued(r.queue, 0), outcomes)
  }

  // ---- After a transmission ----

  function NextState(s: PcbState): PcbState
    requires s in {Probe1, Probe2, Probe3, Announce1, Announce2, Announce3}
  {
    match s
    case Probe1 => Probe2
    case Probe2 => Probe3
    case Probe3 => Announce1
    case Announce1 => Announce2
    case Announce2 => Announce3
    case Announce3 => Running
  }

  /** A packet that has just been sent is scheduled again, replaced by the
      announcement built from it, or freed; `built` says whether building works. */
  function Rescheduled(r: Responder, p: Packet, built: bool): Responder {
    var s := PcbOf(r, p.iface).state;
    match s
    case Probe1 => WithState(SentAfter(r, p, PROBE_INTERVAL), p.iface, NextState(s))
    case Probe2 => WithState(SentAfter(r, p, PROBE_INTERVAL), p.iface, NextState(s))
    case Probe3 =>
      if !built then SentAfter(r, p, PROBE_INTERVAL) else
      var a := Packet(r.nextId, p.iface, 0, false, Announcement(p.sentAt), []);
      var reset := r.(pcbs := r.pcbs[p.iface := Pcb(s, 0)], nextId := r.nextId + 1);
      WithState(SentAfter(reset, a, PROBE_INTERVAL), p.iface, NextState(s))
    case Announce1 => WithState(SentAfter(r, p, ANNOUNCE_INTERVAL), p.iface, NextState(s))
    case Announce2 => WithState(SentAfter(r, p, ANNOUNCE_INTERVAL), p.iface, NextState(s))
    case Announce3 => WithState(r, p.iface, Running)
    case _ => r
  }

  function Handled(r: Responder, p: Packet, built: bool): Responder {
    if PcbOf(r, p.iface).state == Off then r else Rescheduled(r, p.(sentAt := p.sentAt + [r.now]), built)
  }

  predicate AtHead(r: Responder, id: nat) {
    r.queue != [] && r.queue[0].id == id && r.queue[0].queued
  }

  /** The service task handles a transmission: only of the packet at the head, and only while it is marked. */
  function SentPacket(r: Responder, id: nat, built: bool): Responder {
    if AtHead(r, id) then Handled(r.(queue := r.queue[1..]), r.queue[0].(queued := false), built) else r
  }

  function ActionRun(r: Responder, built: bool): Responder {
    if r.actions == [] then r else SentPacket(r.(actions := r.actions[1..]), r.actions[0], built)
  }

  // ---- Probing and announcing ----

  function ProbeDelay(failedProbes: nat, jitter: nat): nat {
    (if failedProbes > 5 then 1000 else 120) + jitter % 128
  }

  /** Probing starts over: everything queued for the interface goes, and a new
      probe packet is made, unless there is no host name to probe for. */
  function ProbeInit(r: Responder, iface: nat, hasHost: bool, built: bool, jitter: nat): Responder {
    var cleared := r.(queue := Cleared(r.queue, iface));
    if !hasHost then WithState(cleared, iface, Running)
    else if !built then cleared
    else
      var p := Packet(r.nextId, iface, 0, false, Probe, []);
      var delay := ProbeDelay(PcbOf(r, iface).failedProbes, jitter);
      WithState(SentAfter(cleared.(nextId := r.nextId + 1), p, delay), iface, Probe1)
  }

  predicate HasPacket(q: seq<Packet>, iface: nat) {
    exists i :: 0 <= i < |q| && q[i].iface == iface
  }

  function Announced(r: Responder, iface: nat, hasHost: bool, built: bool, jitter: nat): Responder {
    var s := PcbOf(r, iface).state;
    if IsProbing(s) then ProbeInit(r, iface, hasHost, built, jitter)
    else if IsAnnouncing(s) then if HasPacket(r.queue, iface) then WithState(r, iface, Announce1) else r
    else if s == Running && hasHost then
      var announcing := WithState(r, iface, Announce1);
      if !built then announcing
      else SentAfter(announcing.(nextId := r.nextId + 1), Packet(r.nextId, iface, 0, false, Other, []), 0)
    else r
  }

  /** A shared answer to a query, accepted only after probing. */
  function Responded(r: Responder, iface: nat, step: nat): Responder {
    if IsAfterProbing(PcbOf(r, iface).state)
    then SentAfter(r.(nextId := r.nextId + 1), Packet(r.nextId, iface, 0, false, Other, []), 25 + 25 * (step % 4))
    else r
  }

  function ProbeFailed(r: Responder, iface: nat): Responder {
    var pcb := PcbOf(r, iface);
    r.(pcbs := r.pcbs[iface := pcb.(failedProbes := (pcb.failedProbes + 1) % 0x10000)])
  }

  /** An interface is switched off, or marked as a duplicate of another one. */
  function Stopped(r: Responder, iface: nat, ready: bool, s: PcbState): Responder
    requires s in {Off, Dup}
  {
    r.(queue := if ready then Cleared(r.queue, iface) else r.queue,
       pcbs := r.pcbs[iface := if ready then Pcb(s, 0) else PcbOf(r, iface).(state := s)])
  }

  /** A service goes: packets left empty are dropped, and interfaces that probed or
      announced only that service count as running. */
  function ServiceRemoved(r: Responder, drop: set<nat>, settled: set<nat>): Responder {
    r.(queue := Without(r.queue, drop),
       pcbs := map iface | iface in r.pcbs ::
                 if iface in settled && (IsProbing(r.pcbs[iface].state) || IsAnnouncing(r.pcbs[iface].state))
                 then r.pcbs[iface].(state := Running) else r.pcbs[iface])
  }

  datatype Step =
    | Elapse(ms: nat)
    | Timer(outcomes: seq<Push>)
    | Action(built: bool)
    | InitProbe(iface: nat, hasHost: bool, built: bool, jitter: nat)
    | Announce(iface: nat, hasHost: bool, built: bool, jitter: nat)
    | Respond(iface: nat, step: nat)
    | FailProbe(iface: nat)
    | Stop(iface: nat, ready: bool, state: PcbState)
    | RemoveService(drop: set<nat>, settled: set<nat>)
    | ClearAll

  predicate Possible(step: Step) {
    step.Stop? ==> step.state in {Off, Dup}
  }

  function Next(r: Responder, step: Step): Responder
    requires Possible(step)
  {
    match step
    case Elapse(ms) => r.(now := r.now + ms)
    case Timer(outcomes) => TimerRun(r, outcomes)
    case Action(built) => ActionRun(r, built)
    case InitProbe(iface, hasHost, built, jitter) => ProbeInit(r, iface, hasHost, built, jitter)
    case Announce(iface, hasHost, built, jitter) => Announced(r, iface, hasHost, built, jitter)
    case Respond(iface, step) => Responded(r, iface, step)
    case FailProbe(iface) => ProbeFailed(r, iface)
    case Stop(iface, ready, s) => Stopped(r, iface, ready, s)
    case RemoveService(drop, settled) => ServiceRemoved(r, drop, settled)
    case ClearAll => r.(queue := [])
  }

  const FRESH := Responder([], [], map[], 0, 0)

  // ---- The responder ----

  class MdnsService {
    var queue: seq<Packet>
    var actions: seq<nat>
    var pcbs: map<nat, Pcb>
    var now: nat
    var nextId: nat

    ghost function Model(): Responder
      reads this
    {
      Responder(queue, actions, pcbs, now, nextId)
    }

    constructor ()
      ensures Model() == FRESH
    {
      queue, actions, pcbs, now, nextId := [], [], map[], 0, 0;
    }

    method SetState(iface: nat, s: PcbState)
      modifies this`pcbs
      ensures Model() == WithState(old(Model()), iface, s)
    {
      var pcb := if iface in pcbs then pcbs[iface] else Pcb(Off, 0);
      pcbs := pcbs[iface := pcb.(state := s)];
    }

    method SendAfter(packet: Packet, ms: nat)
      modifies this`queue
      ensures Model() == SentAfter(old(Model()), packet, ms)
    {
      var p := packet.(sendAt := now + ms);
      if queue == [] || queue[0].sendAt > p.sendAt {
        queue := [p] + queue;
        return;
      }
      var k := 0;
      while k + 1 < |queue| && queue[k + 1].sendAt <= p.sendAt
        invariant k < |queue|
        invariant Position(queue, p.sendAt, 0) == Position(queue, p.sendAt, k + 1)
      {
        k := k + 1;
      }
      queue := queue[..k + 1] + [p] + queue[k + 1..];
    }

    method ClearTxQueueIf(iface: nat)
      modifies this`queue
      ensures queue == Cleared(old(queue), iface)
    {
      ghost var was := queue;
      var dropped := 0;
      while dropped < |queue| && queue[dropped].iface == iface
        invariant dropped <= |queue| && Cleared(queue[..dropped], iface) == []
      {
        assert queue[..dropped + 1][..dropped] == queue[..dropped];
        dropped := dropped + 1;
      }
      var kept: seq<Packet> := [];
      var i := dropped;
      while i < |queue|
        invariant dropped <= i <= |queue|
        invariant kept == Cleared(queue[..i], iface)
      {
        assert queue[..i + 1][..i] == queue[..i];
        if queue[i].iface != iface {
          kept := kept + [queue[i]];
        }
        i := i + 1;
      }
      assert queue[..|queue|] == queue;
      queue := kept;
    }

    method SendPackets(outcomes: seq<Push>)
      modifies this`queue, this`actions
      ensures Model() == TimerRun(old(Model()), outcomes)
    {
      var i := 0;
      while i < |queue| && queue[i].queued
        invariant i <= |queue| && FirstUnqueued(queue, 0) == FirstUnqueued(queue, i)
      {
        i := i + 1;
      }
      var left := outcomes;
      while i < |queue| && queue[i].sendAt < now
        invariant i <= |queue|
        invariant HandedOver(Model(), i, left) == TimerRun(old(Model()), outcomes)
        decreases |queue| - i
      {
        var outcome := if left == [] then Pushed else left[0];
        left := if left == [] then [] else left[1..];
        if outcome == NoMemory {
          return;
        }
        ghost var was := queue;
        queue := queue[i := queue[i].(queued := true)];
        if outcome == Pushed {
          actions := actions + [queue[i].id];
        } else {
          queue := queue[i := queue[i].(queued := false)];
          assert queue == was[i := was[i].(queued := false)];
        }
        i := i + 1;
      }
    }

    method ScheduleTxPacket(p: Packet, built: bool)
      modifies this`queue, this`pcbs, this`nextId
      ensures Model() == Rescheduled(old(Model()), p, built)
      ensures PcbOf(Model(), p.iface).state ==
                match PcbOf(old(Model()), p.iface).state
                case Probe1 => Probe2
                case Probe2 => Probe3
                case Probe3 => if built then Announce1 else Probe3
                case Announce1 => Announce2
                case Announce2 => Announce3
                case Announce3 => Running
                case s => s
      ensures match PcbOf(old(Model()), p.iface).state
              case Probe1 | Probe2 => queue == Inserted(old(queue), p.(sendAt := now + 250))
              case Announce1 | Announce2 => queue == Inserted(old(queue), p.(sendAt := now + 1000))
              case Probe3 =>
                if !built then queue == Inserted(old(queue), p.(sendAt := now + 250))
                else var a := Packet(old(nextId), p.iface, now + 250, false, Announcement(p.sentAt), []);
                     queue == Inserted(old(queue), a) && PcbOf(Model(), p.iface).failedProbes == 0
              case _ => queue == old(queue)
    {
      hide Inserted;
      var s := if p.iface in pcbs then pcbs[p.iface].state else Off;
      match s {
        case Probe1 | Probe2 =>
          SendAfter(p, PROBE_INTERVAL);
          SetState(p.iface, NextState(s));
        case Probe3 =>
          if !built {
            SendAfter(p, PROBE_INTERVAL);
            return;
          }
          var a := Packet(nextId, p.iface, 0, false, Announcement(p.sentAt), []);
          nextId := nextId + 1;
          pcbs := pcbs[p.iface := Pcb(s, 0)];
          SendAfter(a, PROBE_INTERVAL);
          SetState(p.iface, NextState(s));
        case Announce1 | Announce2 =>
          SendAfter(p, ANNOUNCE_INTERVAL);
          SetState(p.iface, NextState(s));
        case Announce3 =>
          SetState(p.iface, Running);
        case _ =>
      }
    }

    method SendPacket(id: nat, built: bool)
      modifies this`queue, this`pcbs, this`nextId
      ensures Model() == SentPacket(old(Model()), id, built)
    {
      hide Rescheduled;
      if queue != [] && queue[0].id == id && queue[0].queued {
        var p := queue[0].(queued := false);
        queue := queue[1..];
        if p.iface in pcbs && pcbs[p.iface].state != Off {
          ScheduleTxPacket(p.(sentAt := p.sentAt + [now]), built);
        }
      }
    }

    method InitPcbProbe(iface: nat, hasHost: bool, built: bool, jitter: nat)
      modifies this`queue, this`pcbs, this`nextId
      ensures Model() == ProbeInit(old(Model()), iface, hasHost, built, jitter)
    {
      hide SentAfter, Cleared;
      ClearTxQueueIf(iface);
      if !hasHost {
        SetState(iface, Running);
        return;
      }
      if built {
        var failed := if iface in pcbs then pcbs[iface].failedProbes else 0;
        var p := Packet(nextId, iface, 0, false, Probe, []);
        nextId := nextId + 1;
        SendAfter(p, ProbeDelay(failed, jitter));
        SetState(iface, Probe1);
      }
    }

    method PcbAnnounce(iface: nat, hasHost: bool, built: bool, jitter: nat)
      modifies this`queue, this`pcbs, this`nextId
      ensures Model() == Announced(old(Model()), iface, hasHost, built, jitter)
    {
      hide SentAfter, ProbeInit;
      var s := if iface in pcbs then pcbs[iface].state else Off;
      if IsProbing(s) {
        InitPcbProbe(iface, hasHost, built, jitter);
      } else if IsAnnouncing(s) {
        var found := GetNextPacket(iface);
        if found {
          SetState(iface, Announce1);
        }
      } else if s == Running {
        if !hasHost {
          return;
        }
        SetState(iface, Announce1);
        if built {
          var p := Packet(nextId, iface, 0, false, Other, []);
          nextId := nextId + 1;
          SendAfter(p, 0);
        }
      }
    }

    method GetNextPacket(iface: nat) returns (found: bool)
      ensures found == HasPacket(queue, iface)
    {
      for i := 0 to |queue|
        invariant forall j :: 0 <= j < i ==> queue[j].iface != iface
      {
        if queue[i].iface == iface {
          return true;
        }
      }
      return false;
    }
  }
}
