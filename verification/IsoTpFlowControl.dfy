/** Flow control over whole runs of the transmit half, told by the received
    frames alone: which parameters are in force, how many frames a block has, and
    when waiting ends a message. */
module IsoTpFlowControl {
  import opened Bytes
  import opened IsoTp
  import opened IsoTpTransfer

  predicate Waiting(m: TxMsg) { m.state == WaitFirstFC || m.state == WaitFC }

  /** Byte i of a received frame; the scratch buffer is cleared after each frame. */
  function ByteOf(data: seq<byte>, i: nat): byte { if i < |data| then data[i] else 0 }

  /** A continue that arrives while the transmit half waits for its first flow control. */
  predicate FirstContinue(tx: Sender, ev: SenderEvent)
    requires FlowOk(ev)
  {
    ev.Flow? && tx.msg.state == WaitFirstFC && ev.data[0] % 16 == 0
  }

  /** What one flow control does, by its status alone: continue resumes the
      message, wait changes nothing but the tenth one ends it, and so does
      everything else; outside a wait nothing happens. */
  lemma FlowControlByStatus(tx: Sender, out: Transport, id: nat, data: seq<byte>)
    requires |data| >= 1
    ensures var (tx', out'), status := SenderStep(tx, out, id, Flow(data)), data[0] % 16;
            && out' == out && tx'.pending == tx.pending && tx'.msg.seqId == tx.msg.seqId
            && (!Waiting(tx.msg) ==> tx' == tx)
            && (Waiting(tx.msg) && status == 0 ==> tx'.msg.state == SendCF)
            && (Waiting(tx.msg) && status == 1 ==>
                  tx'.msg.state == if tx.msg.waitFrames >= 9 then Idle else tx.msg.state)
            && (Waiting(tx.msg) && status >= 2 ==> tx'.msg.state == Idle)
            && (tx.msg.state != WaitFirstFC ==>
                  tx'.msg.blockSize == tx.msg.blockSize && tx'.msg.minSepTime == tx.msg.minSepTime)
  {
  }

  /** The parameters a continue sets: its second byte is the block size, its third
      the separation time, with reserved values replaced by 127. */
  lemma FirstContinueSets(tx: Sender, out: Transport, id: nat, ev: SenderEvent)
    requires FlowOk(ev) && FirstContinue(tx, ev)
    ensures var m, time := SenderStep(tx, out, id, ev).0.msg, ByteOf(ev.data, 2);
            && m.state == SendCF && m.blockSize == ByteOf(ev.data, 1)
            && m.minSepTime == if time <= 127 || 241 <= time <= 249 then time else 127
  {
  }

  /** The index of the flow control that set the parameters in force. */
  function FirstContinueIn(tx: Sender, out: Transport, id: nat, evs: seq<SenderEvent>): (i: int)
    requires forall ev | ev in evs :: FlowOk(ev)
    ensures -1 <= i < |evs|
    ensures i >= 0 ==> evs[i].Flow? && FirstContinue(SenderRun(tx, out, id, evs[..i]).0, evs[i])
    decreases |evs|
  {
    if evs == [] then -1 else
    var n := |evs| - 1;
    if FirstContinue(SenderRun(tx, out, id, evs[..n]).0, evs[n]) then n
    else
      var i := FirstContinueIn(tx, out, id, evs[..n]);
      assert i >= 0 ==> evs[..n][..i] == evs[..i];
      i
  }

  /** Block size and separation time as `data` asks for them. */
  predicate InForce(m: TxMsg, data: seq<byte>) {
    var time := ByteOf(data, 2);
    && m.blockSize == ByteOf(data, 1)
    && m.minSepTime == if time <= 127 || 241 <= time <= 249 then time else 127
  }

  lemma {:induction false} BurstKeepsParameters(tx: Sender, out: Transport, id: nat)
    ensures CfBurst(tx, out, id).0.msg.blockSize == tx.msg.blockSize
    ensures CfBurst(tx, out, id).0.msg.minSepTime == tx.msg.minSepTime
    ensures CfBurst(tx, out, id).0.msg.waitFrames == tx.msg.waitFrames
    ensures tx.msg.state == SendCF ==> CfBurst(tx, out, id).0.msg.state in {Idle, WaitFC}
    decreases |tx.pending|, |out.answers|
  {
    var out' := out.Offer(ConsecutiveFrame(id, tx.msg.seqId, tx.pending));
    if |tx.pending| > 7 {
      if !out.Accepts() {
        BurstKeepsParameters(tx, out', id);
      } else if !BlockBoundary(tx.msg.seqId, tx.msg.blockSize) {
        BurstKeepsParameters(Sender(AfterCf(tx.msg), tx.pending[7..]), out', id);
      }
    }
  }

  /** Nothing but that continue sets the parameters, and none is heard in state SendCF or WaitFC. */
  lemma StepKeepsParameters(tx: Sender, out: Transport, id: nat, ev: SenderEvent)
    requires FlowOk(ev) && !FirstContinue(tx, ev) && SenderStep(tx, out, id, ev).0.msg.state in {SendCF, WaitFC}
    ensures tx.msg.state in {SendCF, WaitFC}
    ensures SenderStep(tx, out, id, ev).0.msg.blockSize == tx.msg.blockSize
    ensures SenderStep(tx, out, id, ev).0.msg.minSepTime == tx.msg.minSepTime
  {
    hide CfBurst;
    if ev.Tick? && tx.msg.state == SendCF {
      BurstKeepsParameters(tx, out, id);
    }
  }

  /** While consecutive frames are being sent, the parameters in force are those of
      the one continue that ended the first wait; no other flow control changes them. */
  lemma {:induction false} ParametersOfFirstContinue(tx: Sender, out: Transport, id: nat, p: seq<byte>,
                                                     evs: seq<SenderEvent>)
    requires Free(tx.msg.state)
    requires forall ev | ev in evs :: FlowOk(ev)
    ensures var m, i := SenderRun(SendTo(tx, p), out, id, evs).0.msg, FirstContinueIn(SendTo(tx, p), out, id, evs);
            m.state in {SendCF, WaitFC} ==> i >= 0 && InForce(m, evs[i].data)
  {
    hide SenderStep, FirstContinue, InForce;
    if evs != [] {
      var front, last := evs[..|evs| - 1], evs[|evs| - 1];
      ParametersOfFirstContinue(tx, out, id, p, front);
      var (tx', out') := SenderRun(SendTo(tx, p), out, id, front);
      OneMoreEvent(tx', out', id, last);
      var i := FirstContinueIn(SendTo(tx, p), out, id, front);
      assert FirstContinueIn(SendTo(tx, p), out, id, evs) == if FirstContinue(tx', last) then |front| else i;
      assert i >= 0 ==> front[i] == evs[i];
    }
  }

  lemma OneMoreEvent(tx: Sender, out: Transport, id: nat, ev: SenderEvent)
    requires FlowOk(ev)
    ensures var m' := SenderStep(tx, out, id, ev).0.msg;
            && (FirstContinue(tx, ev) ==> InForce(m', ev.data))
            && (!FirstContinue(tx, ev) && m'.state in {SendCF, WaitFC} ==>
                  tx.msg.state in {SendCF, WaitFC} && forall data :: InForce(tx.msg, data) ==> InForce(m', data))
  {
    if FirstContinue(tx, ev) {
      FirstContinueSets(tx, out, id, ev);
    } else if SenderStep(tx, out, id, ev).0.msg.state in {SendCF, WaitFC} {
      StepKeepsParameters(tx, out, id, ev);
    }
  }

  /** A block in a run, in terms of the flow control that asked for it: with k frames
      out, at most as many frames as it asks for, at most 16, go out before the next
      flow control; in a block that is not the last, exactly as many, or up to the
      wrap of the sequence number if that comes first. Without a block size there
      is one block. */
  lemma BlocksAsAskedFor(tx: Sender, out: Transport, id: nat, p: seq<byte>, evs: seq<SenderEvent>, now: int)
    returns (k: nat)
    requires Free(tx.msg.state)
    requires forall ev | ev in evs :: FlowOk(ev)
    ensures k <= |Segmentation(id, p)|
    ensures var (tx', out') := SenderRun(SendTo(tx, p), out, id, evs);
            var i := FirstContinueIn(SendTo(tx, p), out, id, evs);
            && out'.sent == out.sent + Segmentation(id, p)[..k]
            && (tx'.msg.state == SendCF ==>
                  var (after, out'') := ProcessSender(tx', out', id, now);
                  && k >= 1 && i >= 0 && out'.sent <= out''.sent
                  && var asked, sent := ByteOf(evs[i].data, 1), |out''.sent| - |out'.sent|;
                     && (asked == 0 ==> after.msg.state == Idle)
                     && (asked > 0 ==> sent <= asked && sent <= 16)
                     && (after.msg.state == WaitFC ==> sent == Min(asked, 16 - (k - 1) % 16))
                     && after.msg.state in {Idle, WaitFC})
  {
    k := SenderEmitsSegmentation(tx, out, id, p, evs);
    ParametersOfFirstContinue(tx, out, id, p, evs);
    RunKeepsBlockStart(SendTo(tx, p), out, id, evs);
    var (tx', out') := SenderRun(SendTo(tx, p), out, id, evs);
    if tx'.msg.state == SendCF {
      hide SenderRun, FirstContinueIn, CfBurst, Segmentation;
      assert tx'.msg.seqId == k % 16 && k >= 1;
      WrapOfSequence(k);
      BurstCounts(tx', out', id);
      if tx'.msg.blockSize > 0 {
        BlockLeftFromStart(tx'.msg.seqId, tx'.msg.blockSize);
      }
    }
  }

  lemma WrapOfSequence(k: nat)
    requires k >= 1
    ensures 17 - Slot(k % 16) == 16 - (k - 1) % 16
  {
  }

  // ---- Waiting ----

  /** How many of the events are waits that were heard. */
  function Waits(tx: Sender, out: Transport, id: nat, evs: seq<SenderEvent>): nat
    requires forall ev | ev in evs :: FlowOk(ev)
    decreases |evs|
  {
    if evs == [] then 0 else
    var n := |evs| - 1;
    assert FlowOk(evs[n]);
    Waits(tx, out, id, evs[..n])
      + if evs[n].Flow? && evs[n].data[0] % 16 == 1 && Waiting(SenderRun(tx, out, id, evs[..n]).0.msg) then 1 else 0
  }

  predicate Awaited(m: TxMsg, waits: nat) {
    && (m.state == Send ==> waits == 0)
    && (m.state in {WaitFirstFC, WaitFC, SendCF} ==> m.waitFrames == waits < 10)
    && m.state in {Idle, Send, WaitFirstFC, WaitFC, SendCF}
  }

  lemma StepAwaited(tx: Sender, out: Transport, id: nat, ev: SenderEvent, waits: nat)
    requires FlowOk(ev) && Awaited(tx.msg, waits)
    ensures var heard := ev.Flow? && ev.data[0] % 16 == 1 && Waiting(tx.msg);
            Awaited(SenderStep(tx, out, id, ev).0.msg, waits + if heard then 1 else 0)
  {
    hide CfBurst;
    if ev.Tick? && tx.msg.state == SendCF {
      BurstKeepsParameters(tx, out, id);
    }
  }

  lemma {:induction false} RunAwaited(tx: Sender, out: Transport, id: nat, p: seq<byte>, evs: seq<SenderEvent>)
    requires Free(tx.msg.state)
    requires forall ev | ev in evs :: FlowOk(ev)
    ensures Awaited(SenderRun(SendTo(tx, p), out, id, evs).0.msg, Waits(SendTo(tx, p), out, id, evs))
  {
    hide SenderStep, Awaited;
    if evs == [] {
      StartAwaited(tx, p);
    } else {
      var front, last := evs[..|evs| - 1], evs[|evs| - 1];
      RunAwaited(tx, out, id, p, front);
      var (tx', out') := SenderRun(SendTo(tx, p), out, id, front);
      StepAwaited(tx', out', id, last, Waits(SendTo(tx, p), out, id, front));
    }
  }

  lemma StartAwaited(tx: Sender, p: seq<byte>)
    requires Free(tx.msg.state)
    ensures Awaited(SendTo(tx, p).msg, 0)
  {
  }

  /** In every run a wait that is heard sends nothing, and ends the message exactly
      if it is the tenth one heard, counted over the whole message. */
  lemma TenthWaitGivesUp(tx: Sender, out: Transport, id: nat, p: seq<byte>, evs: seq<SenderEvent>, data: seq<byte>)
    requires Free(tx.msg.state) && |data| >= 1 && data[0] % 16 == 1
    requires forall ev | ev in evs :: FlowOk(ev)
    requires Waiting(SenderRun(SendTo(tx, p), out, id, evs).0.msg)
    ensures var (tx', out') := SenderRun(SendTo(tx, p), out, id, evs);
            var (after, out'') := SenderStep(tx', out', id, Flow(data));
            && out'' == out' && Waits(SendTo(tx, p), out, id, evs) <= 9
            && after.msg.state == if Waits(SendTo(tx, p), out, id, evs) == 9 then Idle else tx'.msg.state
  {
    RunAwaited(tx, out, id, p, evs);
    hide SenderRun, Waits;
  }

  /** When a message is given up, in terms of what arrives and of time: the first
      flow control is 250 ms late, or one is neither continue nor wait, or it is
      the tenth wait. */
  lemma GivesUpExactly(tx: Sender, ev: SenderEvent)
    requires FlowOk(ev)
    ensures GivesUp(tx, ev) <==>
              match ev
              case Tick(now) => tx.msg.state == WaitFirstFC && (now - tx.msg.waitFc) % 0x1_0000_0000 >= 250
              case Flow(data) =>
                Waiting(tx.msg) && (data[0] % 16 >= 2 || (data[0] % 16 == 1 && tx.msg.waitFrames >= 9))
  {
  }

  predicate AllInTime(evs: seq<SenderEvent>, start: int) {
    forall i | 0 <= i < |evs| && evs[i].Tick? :: (evs[i].now - start) % 0x1_0000_0000 < 250
  }

  function FlowCount(evs: seq<SenderEvent>): nat {
    if evs == [] then 0 else
    var n := |evs| - 1;
    FlowCount(evs[..n]) + if evs[n].Flow? then 1 else 0
  }

  /** Where the first wait of `p` stands after polls and waits. */
  predicate InFirstWait(tx: Sender, p: seq<byte>, start: int, evs: seq<SenderEvent>)
    requires |p| >= 8
  {
    && tx.pending == p[6..] && tx.msg.state in {WaitFirstFC, Idle}
    && (tx.msg.state == WaitFirstFC <==> AllInTime(evs, start) && FlowCount(evs) <= 9)
    && (tx.msg.state == WaitFirstFC ==> tx.msg.waitFc == start && tx.msg.waitFrames == FlowCount(evs))
  }

  lemma OneMoreInFirstWait(tx: Sender, out: Transport, id: nat, p: seq<byte>, start: int, front: seq<SenderEvent>,
                           ev: SenderEvent)
    requires |p| >= 8 && InFirstWait(tx, p, start, front)
    requires ev.Tick? || (|ev.data| >= 1 && ev.data[0] % 16 == 1)
    ensures InFirstWait(SenderStep(tx, out, id, ev).0, p, start, front + [ev])
    ensures SenderStep(tx, out, id, ev).1 == out
  {
    hide CfBurst;
    var evs := front + [ev];
    assert evs[..|front|] == front;
    assert AllInTime(evs, start) <==>
           AllInTime(front, start) && (ev.Tick? ==> (ev.now - start) % 0x1_0000_0000 < 250) by {
      assert forall i | 0 <= i < |front| :: evs[i] == front[i];
      assert evs[|front|] == ev;
    }
    hide AllInTime;
  }

  lemma FirstPoll(tx: Sender, out: Transport, id: nat, p: seq<byte>, start: int)
    requires tx.msg.state in {Idle, Error} && |p| >= 8 && out.Accepts()
    ensures InFirstWait(SenderStep(SendTo(tx, p), out, id, Tick(start)).0, p, start, [])
    ensures SenderStep(SendTo(tx, p), out, id, Tick(start)).1.sent == out.sent + [FirstFrame(id, p)]
  {
    hide CfBurst;
  }

  /** The first wait of a long message, from the poll that sends its first frame
      on: nothing else goes out, and the message is still alive exactly if every
      poll came within 250 ms of that one and no more than nine waits came in. */
  lemma {:induction false} FirstWaitExactly(tx: Sender, out: Transport, id: nat, p: seq<byte>, start: int,
                                            evs: seq<SenderEvent>)
    requires tx.msg.state in {Idle, Error} && |p| >= 8 && out.Accepts()
    requires forall ev | ev in evs :: ev.Tick? || (|ev.data| >= 1 && ev.data[0] % 16 == 1)
    ensures var (tx', out') := SenderRun(SendTo(tx, p), out, id, [Tick(start)] + evs);
            out'.sent == out.sent + [FirstFrame(id, p)] && InFirstWait(tx', p, start, evs)
  {
    hide SenderStep, InFirstWait, SendTo, FirstFrame;
    var first: seq<SenderEvent> := [Tick(start)];
    if evs == [] {
      assert first + evs == first && first[..0] == [];
      assert SenderRun(SendTo(tx, p), out, id, []) == (SendTo(tx, p), out);
      FirstPoll(tx, out, id, p, start);
    } else {
      var front, last := evs[..|evs| - 1], evs[|evs| - 1];
      FirstWaitExactly(tx, out, id, p, start, front);
      assert (first + evs)[..|evs|] == first + front;
      assert front + [last] == evs;
      var (tx', out') := SenderRun(SendTo(tx, p), out, id, first + front);
      OneMoreInFirstWait(tx', out', id, p, start, front, last);
    }
  }
}
