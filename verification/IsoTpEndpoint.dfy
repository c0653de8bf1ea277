/** Both halves of one endpoint together, over any order of payloads handed in,
    polls and received frames. */
module IsoTpEndpoint {
  import opened Bytes
  import opened IsoTp
  import opened IsoTpTransfer

  datatype EndpointEvent =
    | Sending(payload: seq<byte>)
    | Polling(now: int)
    | Receiving(now: int, id: nat, data: seq<byte>)

  predicate EventOk(ev: EndpointEvent) {
    ev.Receiving? ==> Receivable(ev.data)
  }

  function EndpointStep(e: Endpoint, ev: EndpointEvent): (r: Endpoint)
    requires ReceiverOk(e.rx) && EventOk(ev)
    ensures ReceiverOk(r.rx)
  {
    match ev
    case Sending(payload) => e.(tx := SendTo(e.tx, payload))
    case Polling(now) => ProcessEndpoint(e, now)
    case Receiving(now, id, data) => ReceiveEndpoint(e, now, id, data)
  }

  function EndpointRun(e: Endpoint, evs: seq<EndpointEvent>): (r: Endpoint)
    requires ReceiverOk(e.rx) && forall ev | ev in evs :: EventOk(ev)
    ensures ReceiverOk(r.rx)
    decreases |evs|
  {
    if evs == [] then e else EndpointStep(EndpointRun(e, evs[..|evs| - 1]), evs[|evs| - 1])
  }

  // ---- Flow control out ----

  /** A flow control frame, by its type in the high nibble of the first byte. */
  predicate IsControl(m: CanFrame) { |m.data| >= 1 && m.data[0] / 16 == 3 }

  function Controls(frames: seq<CanFrame>): nat {
    if frames == [] then 0 else
    Controls(frames[..|frames| - 1]) + if IsControl(frames[|frames| - 1]) then 1 else 0
  }

  function FirstFramesHeard(evs: seq<EndpointEvent>, rxId: nat): nat {
    if evs == [] then 0 else
    var ev := evs[|evs| - 1];
    FirstFramesHeard(evs[..|evs| - 1], rxId)
      + if ev.Receiving? && ev.id == rxId && |ev.data| >= 1 && ev.data[0] / 16 == 1 then 1 else 0
  }

  lemma OneMoreFrame(frames: seq<CanFrame>, m: CanFrame)
    ensures Controls(frames + [m]) == Controls(frames) + if IsControl(m) then 1 else 0
  {
    assert (frames + [m])[..|frames|] == frames;
  }

  /** Every flow control among the frames says: continue, no block size, no separation time. */
  predicate ControlsSay(frames: seq<CanFrame>, id: nat) {
    forall m | m in frames && IsControl(m) :: m == CanFrame(id, [0x30, 0, 0])
  }

  lemma {:induction false} BurstSendsNoControl(tx: Sender, out: Transport, id: nat)
    ensures Controls(CfBurst(tx, out, id).1.sent) == Controls(out.sent)
    ensures ControlsSay(out.sent, id) ==> ControlsSay(CfBurst(tx, out, id).1.sent, id)
    ensures out.answers == [] ==> CfBurst(tx, out, id).1.answers == []
    decreases |tx.pending|, |out.answers|
  {
    var m := ConsecutiveFrame(id, tx.msg.seqId, tx.pending);
    OneMoreFrame(out.sent, m);
    assert !IsControl(m);
    var out' := out.Offer(m);
    if |tx.pending| > 7 {
      if !out.Accepts() {
        BurstSendsNoControl(tx, out', id);
      } else if !BlockBoundary(tx.msg.seqId, tx.msg.blockSize) {
        BurstSendsNoControl(Sender(AfterCf(tx.msg), tx.pending[7..]), out', id);
      }
    }
  }

  lemma StepControls(e: Endpoint, ev: EndpointEvent)
    requires ReceiverOk(e.rx) && EventOk(ev) && e.out.answers == []
    ensures var e', heard := EndpointStep(e, ev),
                             ev.Receiving? && ev.id == e.rxId && |ev.data| >= 1 && ev.data[0] / 16 == 1;
            && e'.out.answers == [] && e'.txId == e.txId && e'.rxId == e.rxId
            && Controls(e'.out.sent) == Controls(e.out.sent) + (if heard then 1 else 0)
            && (ControlsSay(e.out.sent, e.txId) ==> ControlsSay(e'.out.sent, e.txId))
  {
    hide CfBurst, ReceiveReceiver, ReceiveFlowControl, Controls;
    if ev.Polling? {
      BurstSendsNoControl(e.tx, e.out, e.txId);
      if |e.tx.pending| <= 7 {
        OneMoreFrame(e.out.sent, SingleFrame(e.txId, e.tx.pending));
      } else {
        OneMoreFrame(e.out.sent, FirstFrame(e.txId, e.tx.pending));
      }
    } else if ev.Receiving? {
      OneMoreFrame(e.out.sent, FlowControl(e.txId));
    }
  }

  /** In every run of an endpoint with a driver that takes what it is offered, the
      endpoint sends exactly one flow control for each first frame it hears and no
      other, whatever it is sending itself; each is a continue without block size
      or separation time. */
  lemma {:induction false} OneControlPerFirstFrame(e: Endpoint, evs: seq<EndpointEvent>)
    requires ReceiverOk(e.rx) && forall ev | ev in evs :: EventOk(ev)
    requires e.out == Transport([], [])
    ensures var e' := EndpointRun(e, evs);
            && e'.out.answers == [] && e'.txId == e.txId && e'.rxId == e.rxId
            && Controls(e'.out.sent) == FirstFramesHeard(evs, e.rxId)
            && ControlsSay(e'.out.sent, e.txId)
  {
    hide EndpointStep, EventOk;
    if evs != [] {
      OneControlPerFirstFrame(e, evs[..|evs| - 1]);
      StepControls(EndpointRun(e, evs[..|evs| - 1]), evs[|evs| - 1]);
    }
  }

  // ---- A first frame in the middle of a message of one's own ----

  /** The rest of a message is not divided into blocks any more. */
  predicate Undivided(m: TxMsg) {
    m.state == Idle || (m.state in {WaitFC, SendCF} && m.blockSize == 0)
  }

  lemma {:induction false} UndividedBurst(tx: Sender, out: Transport, id: nat)
    requires tx.msg.blockSize == 0
    ensures CfBurst(tx, out, id).0.msg.state == Idle
    decreases |tx.pending|, |out.answers|
  {
    if |tx.pending| > 7 {
      var out' := out.Offer(ConsecutiveFrame(id, tx.msg.seqId, tx.pending));
      UndividedBurst(if out.Accepts() then Sender(AfterCf(tx.msg), tx.pending[7..]) else tx, out', id);
    }
  }

  lemma StepKeepsUndivided(e: Endpoint, ev: EndpointEvent)
    requires ReceiverOk(e.rx) && EventOk(ev) && !ev.Sending? && Undivided(e.tx.msg)
    ensures Undivided(EndpointStep(e, ev).tx.msg)
    ensures ev.Polling? && e.tx.msg.state == SendCF ==> EndpointStep(e, ev).tx.msg.state == Idle
    ensures EndpointStep(e, ev).rxId == e.rxId
  {
    hide CfBurst, ReceiveReceiver, Receivable;
    if e.tx.msg.blockSize == 0 {
      UndividedBurst(e.tx, e.out, e.txId);
    }
  }

  /** The answer to a first frame overwrites the block size the peer asked for: a
      message of one's own that was going out in blocks then goes out in one, in
      the first poll that finds it sending. */
  lemma {:induction false} FirstFrameEndsBlocks(e: Endpoint, now: int, data: seq<byte>, evs: seq<EndpointEvent>)
    requires ReceiverOk(e.rx) && Receivable(data) && data[0] / 16 == 1
    requires e.tx.msg.state in {WaitFC, SendCF}
    requires forall ev | ev in evs :: EventOk(ev) && !ev.Sending?
    ensures var e' := EndpointRun(ReceiveEndpoint(e, now, e.rxId, data), evs);
            && Undivided(e'.tx.msg)
            && (e'.tx.msg.state == SendCF ==> forall at :: ProcessEndpoint(e', at).tx.msg.state == Idle)
  {
    hide CfBurst, Receivable, EndpointStep;
    var e1 := ReceiveEndpoint(e, now, e.rxId, data);
    if evs == [] {
    } else {
      FirstFrameEndsBlocks(e, now, data, evs[..|evs| - 1]);
      StepKeepsUndivided(EndpointRun(e1, evs[..|evs| - 1]), evs[|evs| - 1]);
    }
    var e' := EndpointRun(e1, evs);
    if e'.tx.msg.state == SendCF {
      UndividedBurst(e'.tx, e'.out, e'.txId);
    }
  }
}
