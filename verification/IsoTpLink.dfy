/** Two matched endpoints on a reliable half-duplex link, as a state machine:
    either side may be polled and either direction may deliver its oldest
    frame, in any order, and the driver of either side may refuse frames. */
module IsoTpLink {
  import opened Bytes
  import opened IsoTp
  import opened IsoTpTransfer

  /** `aRead` and `bRead` count the frames of each side the other has been given;
      the rest are in flight. */
  datatype Link = Link(a: Endpoint, b: Endpoint, aRead: nat, bRead: nat)

  datatype Step = PollA(now: int) | PollB(now: int) | DeliverToB(now: int) | DeliverToA(now: int)

  ghost predicate Matched(l: Link) {
    && l.a.txId == l.b.rxId && l.b.txId == l.a.rxId
    && ReceiverOk(l.a.rx) && ReceiverOk(l.b.rx)
    && l.aRead <= |l.a.out.sent| && l.bRead <= |l.b.out.sent|
  }

  ghost predicate Enabled(l: Link, step: Step) {
    match step
    case DeliverToB(now) => l.aRead < |l.a.out.sent| && Receivable(l.a.out.sent[l.aRead].data)
    case DeliverToA(now) => l.bRead < |l.b.out.sent| && Receivable(l.b.out.sent[l.bRead].data)
    case _ => true
  }

  ghost function Next(l: Link, step: Step): Link
    requires Matched(l) && Enabled(l, step)
  {
    match step
    case PollA(now) => l.(a := ProcessEndpoint(l.a, now))
    case PollB(now) => l.(b := ProcessEndpoint(l.b, now))
    case DeliverToB(now) =>
      var m := l.a.out.sent[l.aRead];
      l.(b := ReceiveEndpoint(l.b, now, m.id, m.data), aRead := l.aRead + 1)
    case DeliverToA(now) =>
      var m := l.b.out.sent[l.bRead];
      l.(a := ReceiveEndpoint(l.a, now, m.id, m.data), bRead := l.bRead + 1)
  }

  predicate InFlight(l: Link) { l.aRead < |l.a.out.sent| || l.bRead < |l.b.out.sent| }

  /** The oldest frame on its way to B is a consecutive frame. */
  ghost predicate CarriesConsecutive(l: Link) {
    && l.aRead < |l.a.out.sent| && l.a.out.sent[l.aRead].data != []
    && FrameType(l.a.out.sent[l.aRead].data) == PCI_CF
  }

  /** No timeout strikes that a frame in flight could have prevented: until the
      first frame and its answer have arrived the sender is not polled too late,
      and consecutive frames follow each other closely enough. Other frames may
      be as late as they like, and a sender whose answer was refused may time out. */
  ghost predicate Timely(l: Link, step: Step) {
    match step
    case PollA(now) => l.a.tx.msg.state == WaitFirstFC && InFlight(l) ==> !Elapsed(now, l.a.tx.msg.waitFc)
    case DeliverToB(now) =>
      CarriesConsecutive(l) && l.b.rx.msg.seqId > 1 && l.b.rx.msg.state == WaitData ==>
        !Elapsed(now, l.b.rx.msg.waitCf)
    case _ => true
  }

  /** A has just been given `p`; B transmits nothing of its own, and its receive
      half may be in any state. The drivers may refuse any frames. */
  ghost predicate Start(l: Link, p: seq<byte>) {
    && Matched(l) && |p| <= MAX_MSGBUF
    && l.a.tx.msg.state == Send && l.a.tx.pending == p
    && l.b.tx.msg.state == Idle
    && l.a.out.sent == [] && l.b.out.sent == [] && l.aRead == 0 && l.bRead == 0
  }

  /** What decides a transfer: the payload, what B's receive half held before,
      whether A's driver takes the first offer of the last frame, and whether
      B's driver takes the flow control. */
  datatype Transfer = Transfer(p: seq<byte>, rx: Receiver, last: bool, answer: bool)

  function TransferOf(l: Link, p: seq<byte>): Transfer {
    Transfer(p, l.b.rx, LastTaken(l.a.out.answers, |Segmentation(l.a.txId, p)| - 1), l.b.out.Accepts())
  }

  /** Consecutive frames that go out, if the flow control does. */
  function Consecutive(t: Transfer): nat
    requires |t.p| >= 8
  {
    CfCount(|t.p|) - if t.last then 0 else 1
  }

  /** The steps of a transfer: polls that send something or time out, and deliveries. */
  function TotalWork(t: Transfer): nat {
    if |t.p| <= 7 then if t.last then 2 else 1
    else if !t.answer then 3
    else 4 + Consecutive(t)
  }

  /** The first k consecutive frames are in B's buffer, and only they are. */
  ghost predicate Holds(rx: Receiver, p: seq<byte>, k: nat)
    requires |p| >= 8
  {
    && rx.msg.state == (if k == CfCount(|p|) then Finished else WaitData)
    && rx.msg.len == |p| <= MAX_MSGBUF && rx.msg.seqId == k + 1 && ReceiverOk(rx)
    && (k < CfCount(|p|) ==> rx.buf[..7 * k + 6] == p[..7 * k + 6])
    && (k == CfCount(|p|) ==> rx.buf[..|p|] == p)
  }

  ghost predicate Complete(rx: Receiver, p: seq<byte>) {
    rx.msg.state == Finished && rx.msg.len == |p| <= |rx.buf| && rx.buf[..|p|] == p
  }

  /** Nothing has gone out; what is left of A's driver still decides about the last frame. */
  ghost predicate NotStarted(l: Link, t: Transfer) {
    Start(l, t.p) && TransferOf(l, t.p) == t
  }

  /** A single frame has been offered. */
  ghost predicate SingleStage(l: Link, t: Transfer, done: nat)
    requires |t.p| <= 7
  {
    && l.a.tx.msg.state == Idle && l.a.out.sent == (if t.last then [SingleFrame(l.a.txId, t.p)] else [])
    && l.b.out.sent == [] && l.bRead == 0 && l.aRead == done - 1
    && (if done == 1 then l.b.rx == t.rx else Complete(l.b.rx, t.p))
  }

  /** The first frame is out and the flow control has not arrived. */
  ghost predicate FirstStage(l: Link, t: Transfer, done: nat)
    requires |t.p| >= 8
  {
    && l.a.out.sent == [FirstFrame(l.a.txId, t.p)]
    && (done <= 2 ==> l.a.tx.msg.state == WaitFirstFC && InPlace(l.a.tx, t.p, 1))
    && (done == 3 ==> l.a.tx.msg.state == Idle)
    && (LastTaken(l.a.out.answers, CfCount(|t.p|) - 1) <==> t.last)
    && l.bRead == 0
    && if done == 1 then l.aRead == 0 && l.b.out.sent == [] && (l.b.out.Accepts() <==> t.answer)
       else l.aRead == 1 && l.b.out.sent == (if t.answer then [FlowControl(l.b.txId)] else [])
            && Holds(l.b.rx, t.p, 0)
  }

  /** The flow control has arrived, and then the consecutive frames go out. */
  ghost predicate BurstStage(l: Link, t: Transfer, done: nat)
    requires |t.p| >= 8
  {
    && t.answer && l.bRead == 1 && l.b.out.sent == [FlowControl(l.b.txId)]
    && if done == 3 then
         && l.a.out.sent == [FirstFrame(l.a.txId, t.p)] && l.aRead == 1 && Holds(l.b.rx, t.p, 0)
         && l.a.tx.msg.state == SendCF && l.a.tx.msg.blockSize == 0 && InPlace(l.a.tx, t.p, 1)
         && (LastTaken(l.a.out.answers, CfCount(|t.p|) - 1) <==> t.last)
       else
         && 4 <= done && l.a.tx.msg.state == Idle
         && l.a.out.sent == Segmentation(l.a.txId, t.p)[..Consecutive(t) + 1]
         && l.aRead == done - 3 && Holds(l.b.rx, t.p, done - 4)
  }

  /** The transfer after `done` of its steps. */
  ghost predicate Stage(l: Link, t: Transfer, done: nat) {
    && Matched(l) && |t.p| <= MAX_MSGBUF && l.b.tx.msg.state == Idle && done <= TotalWork(t)
    && if done == 0 then NotStarted(l, t)
       else if |t.p| <= 7 then SingleStage(l, t, done)
       else if done <= 2 || !t.answer then FirstStage(l, t, done)
       else BurstStage(l, t, done)
  }

  /** A step changes nothing, brings the transfer one step further, or uses up a refusal. */
  ghost predicate Advances(l: Link, t: Transfer, done: nat, l': Link) {
    && |l'.a.out.answers| <= |l.a.out.answers|
    && (l' == l || Stage(l', t, done + 1) || (Stage(l', t, done) && |l'.a.out.answers| < |l.a.out.answers|))
  }

  // ---- Polling the sender ----

  lemma SinglePolled(l: Link, t: Transfer, now: int)
    requires NotStarted(l, t) && |t.p| <= 7
    ensures Advances(l, t, 0, Next(l, PollA(now))) && Next(l, PollA(now)) != l
  {
    OfferLeaves(l.a.out, SingleFrame(l.a.txId, t.p), 0);
    assert [] + [SingleFrame(l.a.txId, t.p)] == [SingleFrame(l.a.txId, t.p)];
    hide LastTaken;
  }

  lemma FirstPolled(l: Link, t: Transfer, now: int)
    requires NotStarted(l, t) && |t.p| >= 8
    ensures Advances(l, t, 0, Next(l, PollA(now))) && Next(l, PollA(now)) != l
  {
    OfferLeaves(l.a.out, FirstFrame(l.a.txId, t.p), CfCount(|t.p|));
    assert [] + [FirstFrame(l.a.txId, t.p)] == [FirstFrame(l.a.txId, t.p)];
    hide LastTaken;
    assert Next(l, PollA(now)).a.out != l.a.out;
  }

  lemma BurstPolled(l: Link, t: Transfer, now: int)
    requires Stage(l, t, 3) && |t.p| >= 8 && t.answer
    ensures Advances(l, t, 3, Next(l, PollA(now))) && Next(l, PollA(now)) != l
  {
    var frames := Segmentation(l.a.txId, t.p);
    assert l.a.out.sent == [] + frames[..1];
    var k' := BurstEmits(l.a.tx, l.a.out, l.a.txId, t.p, frames, [], 1);
    BurstCounts(l.a.tx, l.a.out, l.a.txId);
    assert [] + frames[..k'] == frames[..k'];
    hide CfBurst, LastTaken, Holds;
  }

  lemma WaitPolled(l: Link, t: Transfer, done: nat, now: int)
    requires Stage(l, t, done) && Timely(l, PollA(now)) && l.a.tx.msg.state !in {Send, SendCF}
    ensures Advances(l, t, done, Next(l, PollA(now)))
  {
    hide LastTaken, Holds, Complete, CfBurst, InPlace;
  }

  lemma PollAAdvances(l: Link, t: Transfer, done: nat, now: int)
    requires Stage(l, t, done) && Timely(l, PollA(now))
    ensures Advances(l, t, done, Next(l, PollA(now)))
    ensures l.a.tx.msg.state in {Send, SendCF} ==> Next(l, PollA(now)) != l
  {
    hide LastTaken, Holds, Complete, CfBurst, InPlace, Advances, Next;
    if l.a.tx.msg.state !in {Send, SendCF} {
      WaitPolled(l, t, done, now);
    } else if l.a.tx.msg.state == SendCF {
      BurstPolled(l, t, now);
    } else if |t.p| <= 7 {
      SinglePolled(l, t, now);
    } else {
      FirstPolled(l, t, now);
    }
  }

  // ---- Deliveries ----

  lemma SingleDelivered(l: Link, t: Transfer, done: nat, now: int)
    requires Stage(l, t, done) && Enabled(l, DeliverToB(now)) && |t.p| <= 7
    ensures Stage(Next(l, DeliverToB(now)), t, done + 1)
  {
    var m := l.a.out.sent[l.aRead];
    assert m == SingleFrame(l.a.txId, t.p);
    assert PaddedSlice(m.data, 1, |t.p|) == t.p;
    hide LastTaken;
  }

  lemma FirstDelivered(l: Link, t: Transfer, done: nat, now: int)
    requires Stage(l, t, done) && Enabled(l, DeliverToB(now)) && |t.p| >= 8 && done <= 2
    ensures Stage(Next(l, DeliverToB(now)), t, done + 1)
  {
    var m := l.a.out.sent[l.aRead];
    FrameReceivable(l.a.txId, t.p, 0);
    assert m == NthFrame(l.a.txId, t.p, 0);
    assert t.p[..6] == t.p[0..6];
    assert [] + [FlowControl(l.b.txId)] == [FlowControl(l.b.txId)];
    hide LastTaken, InPlace;
  }

  lemma ConsecutiveDelivered(l: Link, t: Transfer, done: nat, now: int)
    requires Stage(l, t, done) && Enabled(l, DeliverToB(now)) && Timely(l, DeliverToB(now)) && |t.p| >= 8 && done >= 3
    ensures Stage(Next(l, DeliverToB(now)), t, done + 1)
  {
    var k := l.aRead;
    FrameReceivable(l.a.txId, t.p, k);
    assert l.a.out.sent[k] == NthFrame(l.a.txId, t.p, k);
    ConsecutiveTaken(l.b.rx, l.a.txId, t.p, k, now);
    hide LastTaken, Holds, InPlace, NthFrame, ReceiveConsecutive, Elapsed;
  }

  lemma ConsecutiveTaken(rx: Receiver, id: nat, p: seq<byte>, k: nat, now: int)
    requires 8 <= |p| <= MAX_MSGBUF && 1 <= k <= CfCount(|p|)
    requires Holds(rx, p, k - 1) && (rx.msg.seqId > 1 ==> !Elapsed(now, rx.msg.waitCf))
    ensures |NthFrame(id, p, k).data| >= 1
    ensures Holds(ReceiveConsecutive(rx, NthFrame(id, p, k).data, now), p, k)
  {
    FrameReceivable(id, p, k);
    var n := CfEnd(|p|, k) - CfStart(k);
    assert CfStart(k) == 6 + 7 * (k - 1) && n == if rx.msg.rest <= 7 then rx.msg.rest else 7;
    assert rx.msg.rest <= 7 <==> k == CfCount(|p|);
    StoredInOrder(rx.buf, id, p, k, n);
  }

  lemma DeliverToBAdvances(l: Link, t: Transfer, done: nat, now: int)
    requires Stage(l, t, done) && Enabled(l, DeliverToB(now)) && Timely(l, DeliverToB(now))
    ensures Stage(Next(l, DeliverToB(now)), t, done + 1)
    ensures Next(l, DeliverToB(now)).a == l.a && Next(l, DeliverToB(now)) != l
  {
    assert Next(l, DeliverToB(now)).aRead == l.aRead + 1 && Next(l, DeliverToB(now)).a == l.a;
    hide Next, Timely;
    if |t.p| <= 7 {
      SingleDelivered(l, t, done, now);
    } else if done <= 2 {
      FirstDelivered(l, t, done, now);
    } else {
      ConsecutiveDelivered(l, t, done, now);
    }
  }

  lemma DeliverToAAdvances(l: Link, t: Transfer, done: nat, now: int)
    requires Stage(l, t, done) && Enabled(l, DeliverToA(now))
    ensures Stage(Next(l, DeliverToA(now)), t, done + 1)
    ensures Next(l, DeliverToA(now)).a.out == l.a.out && Next(l, DeliverToA(now)) != l
  {
    assert l.b.out.sent[l.bRead] == FlowControl(l.b.txId);
    hide LastTaken, Holds, Complete;
  }

  // ---- Every step, and every run ----

  /** Every step the link can take changes nothing, brings the transfer one step
      closer to its end, or uses up a refusal of the first frame. */
  lemma StepAdvances(l: Link, t: Transfer, done: nat, step: Step, l': Link)
    requires Stage(l, t, done) && Taken(l, step, l')
    ensures Advances(l, t, done, l')
  {
    assert l.b.tx.msg.state == Idle;
    hide Stage, Timely, Enabled, ReceiveEndpoint, CfBurst;
    match step
    case PollA(now) => PollAAdvances(l, t, done, now);
    case PollB(now) =>
    case DeliverToB(now) => DeliverToBAdvances(l, t, done, now);
    case DeliverToA(now) => DeliverToAAdvances(l, t, done, now);
  }

  /** Nothing is in flight and the sender has nothing it could send by itself. */
  ghost predicate Quiescent(l: Link) {
    !InFlight(l) && l.a.tx.msg.state !in {Send, SendCF}
  }

  /** How a transfer ends: with exactly the payload if the last frame, and the
      flow control of a segmented message, are taken. A refused single frame
      leaves B as it was; otherwise B goes on waiting, for the last frame if that
      was refused, and for all consecutive frames if its flow control was. */
  ghost predicate Outcome(rx: Receiver, t: Transfer) {
    if |t.p| <= 7 then if t.last then Complete(rx, t.p) else rx == t.rx
    else if t.answer && t.last then Complete(rx, t.p)
    else Holds(rx, t.p, if t.answer then CfCount(|t.p|) - 1 else 0) && rx.msg.state == WaitData
  }

  lemma QuiescentOutcome(l: Link, t: Transfer, done: nat)
    requires Stage(l, t, done) && Quiescent(l)
    ensures Outcome(l.b.rx, t)
    ensures done == TotalWork(t) || (|t.p| >= 8 && !t.answer && done == 2)
  {
    hide LastTaken, InPlace;
  }

  /** While the link is not at rest, some step makes progress at any time that is not too late. */
  lemma SomeStepAdvances(l: Link, t: Transfer, done: nat, now: int) returns (step: Step)
    requires Stage(l, t, done) && !Quiescent(l)
    requires Timely(l, DeliverToB(now))
    ensures Enabled(l, step) && Timely(l, step) && step.now == now
    ensures Next(l, step) != l && Advances(l, t, done, Next(l, step))
  {
    hide LastTaken, Holds, Complete, CfBurst, InPlace;
    if l.a.tx.msg.state in {Send, SendCF} {
      step := PollA(now);
      PollAAdvances(l, t, done, now);
    } else if l.aRead < |l.a.out.sent| {
      step := DeliverToB(now);
      FirstInFlightReceivable(l, t, done);
      DeliverToBAdvances(l, t, done, now);
    } else {
      step := DeliverToA(now);
      DeliverToAAdvances(l, t, done, now);
    }
  }

  lemma FirstInFlightReceivable(l: Link, t: Transfer, done: nat)
    requires Stage(l, t, done) && l.aRead < |l.a.out.sent|
    ensures Receivable(l.a.out.sent[l.aRead].data)
  {
    if |t.p| >= 8 {
      FrameReceivable(l.a.txId, t.p, l.aRead);
      assert l.a.out.sent[l.aRead] == NthFrame(l.a.txId, t.p, l.aRead);
    }
    hide LastTaken, Holds, InPlace, Complete;
  }

  /** A step is taken only when it is enabled and in time. */
  ghost predicate Taken(l: Link, step: Step, l': Link) {
    Matched(l) && Enabled(l, step) && Timely(l, step) && l' == Next(l, step)
  }

  ghost predicate Run(states: seq<Link>, steps: seq<Step>) {
    && |states| == |steps| + 1
    && forall i | 0 <= i < |steps| :: Taken(states[i], steps[i], states[i + 1])
  }

  /** How many of the first n steps changed anything. */
  ghost function EffectiveSteps(states: seq<Link>, n: nat): nat
    requires n < |states|
  {
    if n == 0 then 0 else EffectiveSteps(states, n - 1) + if states[n] == states[n - 1] then 0 else 1
  }

  /** Exact reassembly: every timely run of the two endpoints, in any interleaving
      and with any refusals by both drivers, takes a payload of at most 128 bytes
      through at most TotalWork steps, besides polls whose first frame is refused.
      Once the link is quiescent, B is Finished with exactly the payload, byte for
      byte and across the wrap of the sequence number, if the last frame and the
      flow control are taken when first offered; otherwise the rest of the message
      has not arrived, and it never does. */
  lemma {:induction false} TransferIsExact(states: seq<Link>, steps: seq<Step>, p: seq<byte>, n: nat)
    returns (done: nat)
    requires Run(states, steps) && Start(states[0], p) && n <= |steps|
    ensures Stage(states[n], TransferOf(states[0], p), done)
    ensures |states[n].a.out.answers| <= |states[0].a.out.answers|
    ensures done <= EffectiveSteps(states, n)
            <= done + |states[0].a.out.answers| - |states[n].a.out.answers|
    ensures Quiescent(states[n]) ==>
              var t := TransferOf(states[0], p);
              Outcome(states[n].b.rx, t) && (done == TotalWork(t) || (|t.p| >= 8 && !t.answer && done == 2))
  {
    hide Stage, TransferOf, Next, Quiescent, Outcome, TotalWork;
    var t := TransferOf(states[0], p);
    if n == 0 {
      done := 0;
      StartIsStage(states[0], p);
    } else {
      done := TransferIsExact(states, steps, p, n - 1);
      StepAdvances(states[n - 1], t, done, steps[n - 1], states[n]);
      if states[n] != states[n - 1] && Stage(states[n], t, done + 1) {
        done := done + 1;
      }
    }
    if Quiescent(states[n]) {
      QuiescentOutcome(states[n], t, done);
    }
  }

  lemma StartIsStage(l: Link, p: seq<byte>)
    requires Start(l, p)
    ensures Stage(l, TransferOf(l, p), 0)
  {
    hide LastTaken;
  }

  /** A link at rest stays at rest, and nothing reaches B any more. */
  lemma RestForGood(l: Link, t: Transfer, done: nat, step: Step, l': Link)
    requires Stage(l, t, done) && Quiescent(l) && Taken(l, step, l')
    ensures Quiescent(l') && l'.b == l.b
  {
    hide LastTaken, Holds, InPlace, Complete, CfBurst;
    match step
    case PollA(now) =>
      assert l'.a.out == l.a.out;
    case PollB(now) =>
      assert l'.b == l.b;
    case DeliverToB(now) =>
    case DeliverToA(now) =>
  }

  /** At rest, B holds exactly the payload if and only if nothing that matters was
      refused, unless it held the payload of a single frame before. */
  lemma OutcomeIsExactIff(rx: Receiver, t: Transfer)
    requires Outcome(rx, t)
    ensures |t.p| >= 8 ==> (Complete(rx, t.p) <==> t.last && t.answer)
    ensures |t.p| <= 7 && !Complete(t.rx, t.p) ==> (Complete(rx, t.p) <==> t.last)
  {
    hide Holds;
  }

  /** Drivers that refuse nothing are enough. */
  lemma NothingRefused(l: Link, p: seq<byte>)
    requires Start(l, p) && false !in l.a.out.answers && false !in l.b.out.answers
    ensures TransferOf(l, p).last && TransferOf(l, p).answer
  {
    NoRefusal(l.a.out.answers, |Segmentation(l.a.txId, p)| - 1);
  }
}
