/** Segmentation as a function of the payload alone, the transmit half that
    produces it, and the receive half that undoes it on a link which may lose
    or repeat frames. */
module IsoTpTransfer {
  import opened Bytes
  import opened IsoTp

  // ---- What a payload looks like on the bus ----

  /** Consecutive frames after the first frame of an n-byte payload. */
  function CfCount(n: nat): nat
    requires n >= 6
  {
    n / 7
  }

  /** The position in the payload of consecutive frame k, counted from 1. */
  function CfStart(k: nat): nat
    requires k >= 1
  {
    7 * k - 1
  }

  function CfEnd(n: nat, k: nat): nat
    requires k >= 1
  {
    if 7 * k + 6 < n then 7 * k + 6 else n
  }

  function NthCf(id: nat, p: seq<byte>, k: nat): CanFrame
    requires |p| >= 8 && 1 <= k <= CfCount(|p|)
  {
    CanFrame(id, [0x20 + k % 16] + p[CfStart(k)..CfEnd(|p|, k)])
  }

  function NthFrame(id: nat, p: seq<byte>, k: nat): CanFrame
    requires |p| >= 8 && k <= CfCount(|p|)
  {
    if k == 0 then FirstFrame(id, p) else NthCf(id, p, k)
  }

  function Segmentation(id: nat, p: seq<byte>): (r: seq<CanFrame>)
    ensures |r| >= 1
    ensures |p| >= 8 ==> |r| == CfCount(|p|) + 1
  {
    if |p| <= 7 then [SingleFrame(id, p)]
    else seq(CfCount(|p|) + 1, k requires 0 <= k <= CfCount(|p|) => NthFrame(id, p, k))
  }

  /** The payload bytes in the first k + 1 frames, one frame after another. */
  function CarriedBytes(p: seq<byte>, id: nat, k: nat): seq<byte>
    requires |p| >= 8 && k <= CfCount(|p|)
  {
    if k == 0 then FirstFrame(id, p).data[2..] else CarriedBytes(p, id, k - 1) + NthCf(id, p, k).data[1..]
  }

  lemma SplitAt(p: seq<byte>, i: nat, j: nat)
    requires i <= j <= |p|
    ensures p[..i] + p[i..j] == p[..j]
  {
  }

  /** A segmentation carries the payload, the whole of it and nothing else. */
  lemma {:induction false} FramesCarryPayload(p: seq<byte>, id: nat, k: nat)
    requires |p| >= 8 && k <= CfCount(|p|)
    ensures CarriedBytes(p, id, k) == p[..if k == CfCount(|p|) then |p| else 7 * k + 6]
  {
    if k > 0 {
      FramesCarryPayload(p, id, k - 1);
      var d := p[CfStart(k)..CfEnd(|p|, k)];
      assert NthCf(id, p, k).data[1..] == d;
      SplitAt(p, CfStart(k), CfEnd(|p|, k));
    }
  }

  // ---- The transmit half, over any run ----

  datatype SenderEvent = Tick(now: int) | Flow(data: seq<byte>)

  predicate FlowOk(ev: SenderEvent) {
    ev.Flow? ==> |ev.data| >= 1
  }

  function SenderStep(tx: Sender, out: Transport, id: nat, ev: SenderEvent): (Sender, Transport)
    requires FlowOk(ev)
  {
    match ev
    case Tick(now) => ProcessSender(tx, out, id, now)
    case Flow(data) => (tx.(msg := ReceiveFlowControl(tx.msg, data)), out)
  }

  function SenderRun(tx: Sender, out: Transport, id: nat, evs: seq<SenderEvent>): (Sender, Transport)
    requires forall ev | ev in evs :: FlowOk(ev)
  {
    if evs == [] then (tx, out) else
    var (tx', out') := SenderRun(tx, out, id, evs[..|evs| - 1]);
    SenderStep(tx', out', id, evs[|evs| - 1])
  }

  /** The next event gives the message up: a timeout, an overflow, or too many waits. */
  predicate GivesUp(tx: Sender, ev: SenderEvent)
    requires FlowOk(ev)
  {
    match ev
    case Tick(now) => tx.msg.state == WaitFirstFC && Elapsed(now, tx.msg.waitFc)
    case Flow(data) => tx.msg.state != Idle && ReceiveFlowControl(tx.msg, data).state == Idle
  }

  ghost predicate NeverGivesUp(tx: Sender, out: Transport, id: nat, evs: seq<SenderEvent>)
    requires forall ev | ev in evs :: FlowOk(ev)
  {
    forall i | 0 <= i < |evs| :: !GivesUp(SenderRun(tx, out, id, evs[..i]).0, evs[i])
  }

  /** How the driver answers the first offer after n frames have been taken; a
      frame it refuses before that is offered again. */
  predicate LastTaken(answers: seq<bool>, n: nat)
    decreases |answers|
  {
    if answers == [] then true
    else if n == 0 then answers[0]
    else LastTaken(answers[1..], if answers[0] then n - 1 else n)
  }

  lemma {:induction false} NoRefusal(answers: seq<bool>, n: nat)
    requires false !in answers
    ensures LastTaken(answers, n)
    decreases |answers|
  {
    if answers != [] {
      assert answers[0];
      if n > 0 {
        NoRefusal(answers[1..], n - 1);
      }
    }
  }

  /** What one offer leaves to the frames that follow. */
  lemma OfferLeaves(out: Transport, m: CanFrame, n: nat)
    ensures n > 0 ==>
              (LastTaken(out.answers, n) <==> LastTaken(out.Offer(m).answers, if out.Accepts() then n - 1 else n))
    ensures LastTaken(out.answers, 0) <==> out.Accepts()
    ensures |out.Offer(m).answers| <= |out.answers|
  {
  }

  /** With k frames of `p` taken since `base`, this is where the transmit half stands. */
  ghost predicate Underway(tx: Sender, out: Transport, id: nat, p: seq<byte>, base: seq<CanFrame>, k: nat) {
    && k <= |Segmentation(id, p)|
    && out.sent == base + Segmentation(id, p)[..k]
    && match tx.msg.state
       case Send => k == 0 && tx.pending == p
       case WaitFirstFC => |p| >= 8 && k == 1 && InPlace(tx, p, k)
       case WaitFC => |p| >= 8 && InPlace(tx, p, k)
       case SendCF => |p| >= 8 && InPlace(tx, p, k)
       case Idle => true
       case _ => false
  }

  predicate InPlace(tx: Sender, p: seq<byte>, k: nat)
    requires |p| >= 8
  {
    1 <= k <= CfCount(|p|) && tx.pending == p[CfStart(k)..] && tx.msg.seqId == k % 16
  }

  /** The sequence number counted from 1 to 16, so that the wrap comes last. */
  function Slot(seqId: nat): nat {
    if seqId % 16 == 0 then 16 else seqId % 16
  }

  function Min(x: int, y: int): int { if x < y then x else y }

  /** Where a block may begin: after the first frame, or after a block boundary. */
  predicate BlockStart(seqId: nat, blockSize: byte) {
    blockSize > 0 ==> (Slot(seqId) - 1) % blockSize == 0
  }

  /** Frames from slot `slot` up to and including the next block boundary. */
  function BlockLeft(slot: nat, blockSize: nat): nat
    requires 1 <= slot <= 16 && blockSize > 0
    decreases 16 - slot
  {
    if slot == 16 || slot % blockSize == 0 then 1 else 1 + BlockLeft(slot + 1, blockSize)
  }

  /** How many of n frames are out in the end, with k of them out already. */
  function SentAtEnd(answers: seq<bool>, n: nat, k: nat): nat
    requires k < n
  {
    if LastTaken(answers, n - 1 - k) then n else n - 1
  }

  lemma NextFrame(tx: Sender, id: nat, p: seq<byte>, k: nat)
    requires |p| >= 8 && InPlace(tx, p, k)
    ensures ConsecutiveFrame(id, tx.msg.seqId, tx.pending) == NthCf(id, p, k)
    ensures |tx.pending| > 7 <==> k < CfCount(|p|)
    ensures |tx.pending| > 7 ==> InPlace(Sender(AfterCf(tx.msg), tx.pending[7..]), p, k + 1)
  {
    var n := if |tx.pending| > 7 then 7 else |tx.pending|;
    assert tx.pending[..n] == p[CfStart(k)..CfEnd(|p|, k)];
  }

  lemma Extend(base: seq<CanFrame>, frames: seq<CanFrame>, k: nat)
    requires k < |frames|
    ensures base + frames[..k] + [frames[k]] == base + frames[..k + 1]
  {
  }

  /** What one burst does, in terms of frames of the segmentation: it stops at a
      block boundary or sends everything, but for the last frame if that is refused. */
  lemma {:induction false} BurstEmits(tx: Sender, out: Transport, id: nat, p: seq<byte>, frames: seq<CanFrame>,
                                      base: seq<CanFrame>, k: nat) returns (k': nat)
    requires |p| >= 8 && InPlace(tx, p, k) && tx.msg.state == SendCF
    requires |frames| == CfCount(|p|) + 1 && forall j | 1 <= j < |frames| :: frames[j] == NthCf(id, p, j)
    requires out.sent == base + frames[..k]
    ensures k <= k' <= |frames|
    ensures CfBurst(tx, out, id).1.sent == base + frames[..k']
    ensures var tx' := CfBurst(tx, out, id).0;
            || (tx'.msg.state == WaitFC && InPlace(tx', p, k'))
            || (tx'.msg.state == Idle && k' == SentAtEnd(out.answers, |frames|, k))
    ensures var (tx', out') := CfBurst(tx, out, id);
            && |out'.answers| <= |out.answers|
            && (tx'.msg.state == WaitFC ==>
                  k' < |frames| && SentAtEnd(out'.answers, |frames|, k') == SentAtEnd(out.answers, |frames|, k))
    decreases |tx.pending|, |out.answers|
  {
    NextFrame(tx, id, p, k);
    OfferLeaves(out, frames[k], |frames| - 1 - k);
    hide LastTaken;
    Extend(base, frames, k);
    var out' := out.Offer(frames[k]);
    if |tx.pending| <= 7 {
      k' := if out.Accepts() then k + 1 else k;
    } else if !out.Accepts() {
      k' := BurstEmits(tx, out', id, p, frames, base, k);
    } else {
      k' := k + 1;
      if !BlockBoundary(tx.msg.seqId, tx.msg.blockSize) {
        k' := BurstEmits(Sender(AfterCf(tx.msg), tx.pending[7..]), out', id, p, frames, base, k + 1);
      }
    }
  }

  lemma BlockStep(seqId: nat, blockSize: byte)
    requires seqId < 16 && blockSize > 0
    ensures BlockBoundary(seqId, blockSize) ==>
              BlockLeft(Slot(seqId), blockSize) == 1 && BlockStart((seqId + 1) % 16, blockSize)
    ensures !BlockBoundary(seqId, blockSize) ==>
              BlockLeft(Slot(seqId), blockSize) == 1 + BlockLeft(Slot((seqId + 1) % 16), blockSize)
  {
    ModOf(0, 0, blockSize);
  }

  /** How many frames one burst puts on the bus: up to the block boundary, or
      fewer because the message ends. */
  lemma {:induction false} BurstCounts(tx: Sender, out: Transport, id: nat)
    requires tx.msg.state == SendCF && tx.msg.seqId < 16
    ensures var (tx', out') := CfBurst(tx, out, id);
            && out.sent <= out'.sent
            && tx'.msg.blockSize == tx.msg.blockSize
            && (tx'.msg.state == WaitFC || tx'.msg.state == Idle)
            && (tx.msg.blockSize == 0 ==> tx'.msg.state == Idle)
            && (tx.msg.blockSize > 0 ==>
                  var block := BlockLeft(Slot(tx.msg.seqId), tx.msg.blockSize);
                  && |out'.sent| - |out.sent| <= block
                  && (tx'.msg.state == WaitFC ==>
                        |out'.sent| - |out.sent| == block && BlockStart(tx'.msg.seqId, tx.msg.blockSize)))
    decreases |tx.pending|, |out.answers|
  {
    if tx.msg.blockSize > 0 {
      BlockStep(tx.msg.seqId, tx.msg.blockSize);
    }
    var out' := out.Offer(ConsecutiveFrame(id, tx.msg.seqId, tx.pending));
    if |tx.pending| > 7 {
      if !out.Accepts() {
        BurstCounts(tx, out', id);
      } else if !BlockBoundary(tx.msg.seqId, tx.msg.blockSize) {
        BurstCounts(Sender(AfterCf(tx.msg), tx.pending[7..]), out', id);
      }
    }
  }

  /** Where one event takes the transmit half from k frames to k'. */
  ghost predicate Moved(tx: Sender, out: Transport, id: nat, p: seq<byte>, base: seq<CanFrame>, k: nat, ev: SenderEvent,
                        k': nat)
    requires Underway(tx, out, id, p, base, k) && FlowOk(ev)
  {
    var (tx', out'), n := SenderStep(tx, out, id, ev), |Segmentation(id, p)|;
    && k' >= k && Underway(tx', out', id, p, base, k')
    && (tx.msg.state == Idle ==> tx' == tx && out' == out && k' == k)
    && (tx.msg.state != Idle ==> k < n)
    && (tx.msg.state != Idle && tx'.msg.state == Idle && !GivesUp(tx, ev) ==> k' == SentAtEnd(out.answers, n, k))
    && (tx.msg.state != Idle && tx'.msg.state != Idle ==>
          k' < n && SentAtEnd(out'.answers, n, k') == SentAtEnd(out.answers, n, k))
  }

  lemma BurstMoves(tx: Sender, out: Transport, id: nat, p: seq<byte>, base: seq<CanFrame>, k: nat, now: int)
    returns (k': nat)
    requires Underway(tx, out, id, p, base, k) && tx.msg.state == SendCF
    ensures Moved(tx, out, id, p, base, k, Tick(now), k')
  {
    k' := BurstEmits(tx, out, id, p, Segmentation(id, p), base, k);
    hide CfBurst, SentAtEnd, InPlace;
  }

  lemma FirstPollMoves(tx: Sender, out: Transport, id: nat, p: seq<byte>, base: seq<CanFrame>, now: int)
    returns (k': nat)
    requires Underway(tx, out, id, p, base, 0) && tx.msg.state == Send
    ensures Moved(tx, out, id, p, base, 0, Tick(now), k')
  {
    var first := if |p| <= 7 then SingleFrame(id, p) else FirstFrame(id, p);
    OfferLeaves(out, first, |Segmentation(id, p)| - 1);
    assert Segmentation(id, p)[..1] == [first];
    k' := if out.Accepts() then 1 else 0;
    hide LastTaken;
  }

  lemma WaitMoves(tx: Sender, out: Transport, id: nat, p: seq<byte>, base: seq<CanFrame>, k: nat, ev: SenderEvent)
    requires Underway(tx, out, id, p, base, k) && FlowOk(ev)
    requires ev.Tick? ==> tx.msg.state !in {Send, SendCF}
    ensures Moved(tx, out, id, p, base, k, ev, k)
  {
    hide CfBurst, LastTaken;
  }

  lemma SenderStepUnderway(tx: Sender, out: Transport, id: nat, p: seq<byte>, base: seq<CanFrame>, k: nat,
                           ev: SenderEvent) returns (k': nat)
    requires Underway(tx, out, id, p, base, k) && FlowOk(ev)
    ensures Moved(tx, out, id, p, base, k, ev, k')
  {
    assert tx.msg.state == Send ==> k == 0;
    hide Underway, Moved;
    if ev.Tick? && tx.msg.state == SendCF {
      k' := BurstMoves(tx, out, id, p, base, k, ev.now);
    } else if ev.Tick? && tx.msg.state == Send {
      k' := FirstPollMoves(tx, out, id, p, base, ev.now);
    } else {
      k' := k;
      WaitMoves(tx, out, id, p, base, k, ev);
    }
  }

  lemma NeverGivesUpFront(tx: Sender, out: Transport, id: nat, evs: seq<SenderEvent>)
    requires evs != [] && (forall ev | ev in evs :: FlowOk(ev)) && NeverGivesUp(tx, out, id, evs)
    ensures NeverGivesUp(tx, out, id, evs[..|evs| - 1])
    ensures !GivesUp(SenderRun(tx, out, id, evs[..|evs| - 1]).0, evs[|evs| - 1])
  {
    hide GivesUp, SenderRun;
    var front := evs[..|evs| - 1];
    forall i | 0 <= i < |front| ensures !GivesUp(SenderRun(tx, out, id, front[..i]).0, front[i]) {
      assert front[..i] == evs[..i];
    }
  }

  /** In every run of ticks and flow controls, with any refusals by the driver,
      what goes out for one message is a prefix of its segmentation. A run that
      ends without giving up has sent all of it if and only if the driver takes
      the first offer of the last frame; otherwise that frame is missing. */
  lemma {:induction false} SenderEmitsSegmentation(tx: Sender, out: Transport, id: nat, p: seq<byte>,
                                                   evs: seq<SenderEvent>) returns (k: nat)
    requires Free(tx.msg.state)
    requires forall ev | ev in evs :: FlowOk(ev)
    ensures k <= |Segmentation(id, p)|
    ensures var (tx', out'), n := SenderRun(SendTo(tx, p), out, id, evs), |Segmentation(id, p)|;
            && out'.sent == out.sent + Segmentation(id, p)[..k]
            && Underway(tx', out', id, p, out.sent, k)
            && (tx'.msg.state != Idle ==>
                  k < n && (LastTaken(out'.answers, n - 1 - k) <==> LastTaken(out.answers, n - 1)))
            && (tx'.msg.state == Idle && NeverGivesUp(SendTo(tx, p), out, id, evs) ==>
                  && (k == n <==> LastTaken(out.answers, n - 1))
                  && (k == n - 1 <==> !LastTaken(out.answers, n - 1)))
  {
    hide LastTaken, GivesUp, SenderStep, NeverGivesUp;
    if evs == [] {
      k := 0;
    } else {
      var front, last := evs[..|evs| - 1], evs[|evs| - 1];
      var before := SenderEmitsSegmentation(tx, out, id, p, front);
      var (tx', out') := SenderRun(SendTo(tx, p), out, id, front);
      if NeverGivesUp(SendTo(tx, p), out, id, evs) {
        NeverGivesUpFront(SendTo(tx, p), out, id, evs);
      }
      hide InPlace, SendTo;
      k := SenderStepUnderway(tx', out', id, p, out.sent, before, last);
    }
  }

  /** A driver that refuses the last frame once loses it: the transmit half is idle
      with only the first frame sent, although every later offer would be taken. */
  lemma RefusedLastFrameLost(tx: Sender, id: nat)
    requires Free(tx.msg.state)
    ensures var p, evs := seq<byte>(8, i => 0), [Tick(0), Flow([0x30, 0, 0]), Tick(0)];
            var (tx', out') := SenderRun(SendTo(tx, p), Transport([], [true, false]), id, evs);
            && NeverGivesUp(SendTo(tx, p), Transport([], [true, false]), id, evs)
            && tx'.msg.state == Idle && out'.answers == []
            && |Segmentation(id, p)| == 2 && out'.sent == [FirstFrame(id, p)]
  {
    var p, evs: seq<SenderEvent> := seq<byte>(8, i => 0), [Tick(0), Flow([0x30, 0, 0]), Tick(0)];
    var start, out := SendTo(tx, p), Transport([], [true, false]);
    assert evs[..0] == [] && evs[..1] == [Tick(0)] && evs[..2] == [Tick(0), Flow([0x30, 0, 0])] && evs[..3] == evs;
    assert evs[..3][..2] == evs[..2] && evs[..2][..1] == evs[..1] && evs[..1][..0] == [];
    var first := SenderStep(start, out, id, evs[0]);
    assert SenderRun(start, out, id, evs[..1]) == first;
    assert out.Offer(FirstFrame(id, p)) == Transport([FirstFrame(id, p)], [false]);
    var second := SenderStep(first.0, first.1, id, evs[1]);
    assert SenderRun(start, out, id, evs[..2]) == second;
    assert second.0.msg.state == SendCF && |second.0.pending| == 2;
  }

  // ---- Block sizes ----

  lemma MulBounds(b: nat, d: int)
    requires b > 0
    ensures d >= 1 ==> b * d >= b
    ensures d <= -1 ==> b * d <= -(b as int)
  {
  }

  lemma ModOf(q: nat, r: nat, b: nat)
    requires r < b
    ensures (q * b + r) % b == r
  {
    var s := q * b + r;
    var d := s / b - q;
    assert b * d == r - s % b;
    MulBounds(b, d);
  }

  lemma ModShift(m: nat, j: nat, b: nat)
    requires b > 0 && m % b == 0
    ensures j < b ==> (m + j) % b == j
    ensures (m + b) % b == 0
  {
    var q := m / b;
    assert m == q * b;
    if j < b {
      ModOf(q, j, b);
    }
    ModOf(q + 1, 0, b);
  }

  /** j frames into the block after a boundary at slot `prev`, the block runs to
      its full size or to the wrap, whichever comes first. */
  lemma {:induction false} BlockLeftInside(prev: nat, j: nat, blockSize: nat)
    requires j < blockSize && prev % blockSize == 0 && prev + j <= 15
    ensures BlockLeft(prev + j + 1, blockSize) ==
              if 16 - prev < blockSize then 16 - prev - j else blockSize - j
    decreases 16 - prev - j
  {
    ModShift(prev, j + 1, blockSize);
    if prev + j < 15 && j + 1 < blockSize {
      BlockLeftInside(prev, j + 1, blockSize);
    }
  }

  /** From a block start at most min(blockSize, 16) frames go out before the
      next flow control, and exactly blockSize unless the wrap cuts the block. */
  lemma BlockLeftFromStart(seqId: nat, blockSize: byte)
    requires blockSize > 0 && BlockStart(seqId, blockSize)
    ensures BlockLeft(Slot(seqId), blockSize)
         == Min(blockSize, 17 - Slot(seqId))
    ensures BlockLeft(Slot(seqId), blockSize) <= 16 && BlockLeft(Slot(seqId), blockSize) <= blockSize
  {
    BlockLeftInside(Slot(seqId) - 1, 0, blockSize);
  }

  lemma MultiplesApart(m: nat, n: nat, b: nat)
    requires b > 0 && m < n && m % b == 0 && n % b == 0
    ensures n - m >= b
  {
    var q, r := m / b, n / b;
    assert b * (r - q) == n - m;
    MulBounds(b, r - q);
  }

  lemma BlocksExactIfDivides(blockSize: byte, s: nat)
    requires blockSize > 0 && 16 % blockSize == 0 && BlockStart(s, blockSize)
    ensures BlockLeft(Slot(s), blockSize) == blockSize
  {
    BlockLeftFromStart(s, blockSize);
    MultiplesApart(Slot(s) - 1, 16, blockSize);
  }

  lemma ShortBlock(blockSize: byte) returns (s: nat)
    requires blockSize > 0 && 16 % blockSize != 0
    ensures s < 16 && BlockStart(s, blockSize) && BlockLeft(Slot(s), blockSize) < blockSize
  {
    var q, r := 16 / blockSize, 16 % blockSize;
    ModOf(q, 0, blockSize);
    assert 16 - r == q * blockSize + 0;
    s := (17 - r) % 16;
    assert Slot(s) == 17 - r;
    BlockLeftFromStart(s, blockSize);
  }

  /** Blocks all have the requested size exactly for the sizes that divide 16. */
  lemma BlocksExactIffDivides16(blockSize: byte)
    requires blockSize > 0
    ensures (forall s: nat | s < 16 && BlockStart(s, blockSize) :: BlockLeft(Slot(s), blockSize) == blockSize)
            <==> 16 % blockSize == 0
  {
    if 16 % blockSize == 0 {
      forall s: nat | s < 16 && BlockStart(s, blockSize) ensures BlockLeft(Slot(s), blockSize) == blockSize {
        BlocksExactIfDivides(blockSize, s);
      }
    } else {
      var s := ShortBlock(blockSize);
    }
  }

  /** Sequence number and block parameters between bursts. */
  ghost predicate AtBlockStart(tx: Sender) {
    && (tx.msg.state == WaitFirstFC ==> tx.msg.seqId == 1)
    && (tx.msg.state in {WaitFC, SendCF} ==> tx.msg.seqId < 16 && BlockStart(tx.msg.seqId, tx.msg.blockSize))
  }

  lemma StepKeepsBlockStart(tx: Sender, out: Transport, id: nat, ev: SenderEvent)
    requires AtBlockStart(tx) && FlowOk(ev)
    ensures AtBlockStart(SenderStep(tx, out, id, ev).0)
    ensures CfBurst(tx, out, id).0.msg.state in {WaitFC, Idle} || tx.msg.state != SendCF
  {
    if tx.msg.state == SendCF {
      BurstCounts(tx, out, id);
      BurstSeqId(tx, out, id);
    }
    if tx.msg.state == WaitFirstFC && ev.Flow? && Padded(ev.data, 1) > 0 {
      ModOf(0, 0, Padded(ev.data, 1));
    }
  }

  lemma {:induction false} BurstSeqId(tx: Sender, out: Transport, id: nat)
    requires tx.msg.seqId < 16
    ensures CfBurst(tx, out, id).0.msg.seqId < 16
    decreases |tx.pending|, |out.answers|
  {
    var out' := out.Offer(ConsecutiveFrame(id, tx.msg.seqId, tx.pending));
    if |tx.pending| > 7 {
      BurstSeqId(if out.Accepts() then Sender(AfterCf(tx.msg), tx.pending[7..]) else tx, out', id);
    }
  }

  lemma {:induction false} RunKeepsBlockStart(tx: Sender, out: Transport, id: nat, evs: seq<SenderEvent>)
    requires AtBlockStart(tx)
    requires forall ev | ev in evs :: FlowOk(ev)
    ensures AtBlockStart(SenderRun(tx, out, id, evs).0)
  {
    if evs != [] {
      var front := evs[..|evs| - 1];
      RunKeepsBlockStart(tx, out, id, front);
      var (tx', out') := SenderRun(tx, out, id, front);
      StepKeepsBlockStart(tx', out', id, evs[|evs| - 1]);
    }
  }

  /** In every run, the frames that go out between one flow control and the next
      (one tick in state SendCF, the last frame included) are at most
      min(blockSize, 16). A block that is not the last runs to its size or to the
      wrap, whichever comes first; so it is exact when blockSize divides 16. */
  lemma BlocksAreBounded(tx: Sender, out: Transport, id: nat, p: seq<byte>, evs: seq<SenderEvent>, now: int)
    requires Free(tx.msg.state)
    requires forall ev | ev in evs :: FlowOk(ev)
    ensures var (tx', out') := SenderRun(SendTo(tx, p), out, id, evs);
            tx'.msg.state == SendCF && tx'.msg.blockSize > 0 ==>
              var (after, out'') := ProcessSender(tx', out', id, now);
              && (after.msg.state == WaitFC || after.msg.state == Idle)
              && out'.sent <= out''.sent
              && |out''.sent| - |out'.sent| <= tx'.msg.blockSize
              && |out''.sent| - |out'.sent| <= 16
              && (after.msg.state == WaitFC ==>
                    |out''.sent| - |out'.sent| == Min(tx'.msg.blockSize, 17 - Slot(tx'.msg.seqId)))
              && (after.msg.state == WaitFC && 16 % tx'.msg.blockSize == 0 ==>
                    |out''.sent| - |out'.sent| == tx'.msg.blockSize)
  {
    RunKeepsBlockStart(SendTo(tx, p), out, id, evs);
    var (tx', out') := SenderRun(SendTo(tx, p), out, id, evs);
    if tx'.msg.state == SendCF && tx'.msg.blockSize > 0 {
      BurstCounts(tx', out', id);
      BlockLeftFromStart(tx'.msg.seqId, tx'.msg.blockSize);
      if 16 % tx'.msg.blockSize == 0 {
        BlocksExactIfDivides(tx'.msg.blockSize, tx'.msg.seqId);
      }
    }
  }

  // ---- The receive half, on a link that loses and repeats ----

  datatype Arrival = Arrival(frame: nat, now: int)

  predicate InOrder(arrivals: seq<Arrival>, n: nat) {
    && (forall i | 0 <= i < |arrivals| :: arrivals[i].frame <= n)
    && (forall i, j | 0 <= i < j < |arrivals| :: arrivals[i].frame <= arrivals[j].frame)
  }

  lemma FrameReceivable(id: nat, p: seq<byte>, k: nat)
    requires 8 <= |p| <= MAX_MSGBUF && k <= CfCount(|p|)
    ensures var d := NthFrame(id, p, k).data;
            && Receivable(d)
            && (k == 0 ==> FrameType(d) == PCI_FF && FirstFrameLength(d) == |p| && PaddedSlice(d, 2, 6) == p[..6])
            && (k >= 1 ==> FrameType(d) == PCI_CF && d[0] % 16 == k % 16
                           && |d| == 1 + CfEnd(|p|, k) - CfStart(k)
                           && PaddedSlice(d, 1, CfEnd(|p|, k) - CfStart(k)) == p[CfStart(k)..CfEnd(|p|, k)])
  {
  }

  ghost function Deliver(rx: Receiver, id: nat, p: seq<byte>, arrivals: seq<Arrival>): (r: Receiver)
    requires ReceiverOk(rx) && 8 <= |p| <= MAX_MSGBUF
    requires forall i | 0 <= i < |arrivals| :: arrivals[i].frame <= CfCount(|p|)
    ensures ReceiverOk(r)
  {
    if arrivals == [] then rx else
    var last := arrivals[|arrivals| - 1];
    FrameReceivable(id, p, last.frame);
    ReceiveReceiver(Deliver(rx, id, p, arrivals[..|arrivals| - 1]), NthFrame(id, p, last.frame).data, last.now)
  }

  /** The bytes a frame adds when it is the one expected. */
  lemma StoredInOrder(buf: seq<byte>, id: nat, p: seq<byte>, k: nat, n: nat)
    requires 8 <= |p| <= MAX_MSGBUF == |buf| && 1 <= k <= CfCount(|p|) && n == CfEnd(|p|, k) - CfStart(k)
    requires buf[..CfStart(k)] == p[..CfStart(k)]
    ensures var d := NthFrame(id, p, k).data;
            Store(buf, CfStart(k), PaddedSlice(d, 1, n))[..CfEnd(|p|, k)] == p[..CfEnd(|p|, k)]
  {
    FrameReceivable(id, p, k);
    var r := Store(buf, CfStart(k), PaddedSlice(NthFrame(id, p, k).data, 1, n));
    assert r[..CfEnd(|p|, k)] == r[..CfStart(k)] + r[CfStart(k)..CfStart(k) + n];
    assert p[..CfEnd(|p|, k)] == p[..CfStart(k)] + p[CfStart(k)..CfEnd(|p|, k)];
  }

  lemma DeliverNone(rx: Receiver, id: nat, p: seq<byte>, arrivals: seq<Arrival>)
    requires ReceiverOk(rx) && 8 <= |p| <= MAX_MSGBUF
    requires forall i | 0 <= i < |arrivals| :: arrivals[i].frame <= CfCount(|p|)
    ensures Deliver(rx, id, p, arrivals[..0]) == rx
  {
  }

  lemma DeliverNext(rx: Receiver, id: nat, p: seq<byte>, arrivals: seq<Arrival>, m: nat)
    requires ReceiverOk(rx) && 8 <= |p| <= MAX_MSGBUF && m < |arrivals|
    requires forall i | 0 <= i < |arrivals| :: arrivals[i].frame <= CfCount(|p|)
    ensures Receivable(NthFrame(id, p, arrivals[m].frame).data)
    ensures Deliver(rx, id, p, arrivals[..m + 1])
         == ReceiveReceiver(Deliver(rx, id, p, arrivals[..m]), NthFrame(id, p, arrivals[m].frame).data, arrivals[m].now)
  {
    assert arrivals[..m + 1][..m] == arrivals[..m] && arrivals[..m + 1][m] == arrivals[m];
    FrameReceivable(id, p, arrivals[m].frame);
    hide ReceiveReceiver, NthFrame, Receivable;
  }

  /** Frames 0 to c come one directly after another from arrival s on; from the
      second consecutive frame on, every arrival up to the m-th is in time. */
  predicate InSuccession(arrivals: seq<Arrival>, m: nat, s: nat, c: nat)
    requires m <= |arrivals|
  {
    && s + c < m
    && (forall j | s <= j <= s + c :: arrivals[j].frame == j - s)
    && (forall j | s + 2 <= j < m :: !Elapsed(arrivals[j].now, arrivals[j - 1].now))
  }

  /** What the receive half holds after m arrivals, the first of them a first
      frame. While it waits, its last frame was the last arrival; if that is the
      one expected, nothing was skipped since arrival s. */
  ghost predicate Progress(rx: Receiver, p: seq<byte>, arrivals: seq<Arrival>, m: nat, s: nat)
    requires |p| >= 8 && 1 <= m <= |arrivals|
  {
    var r, n, last := rx.msg, CfCount(|p|), arrivals[m - 1];
    && ReceiverOk(rx) && r.state in {WaitData, Finished, Idle}
    && (r.state == WaitData ==>
          && r.len == |p| && r.seqId <= n && last.frame >= r.seqId - 1 && last.frame % 16 == (r.seqId - 1) % 16
          && (r.seqId > 1 ==> r.waitCf == last.now)
          && (last.frame == r.seqId - 1 ==>
                && InSuccession(arrivals, m, s, r.seqId - 1) && s + r.seqId == m
                && rx.buf[..6 + 7 * (r.seqId - 1)] == p[..6 + 7 * (r.seqId - 1)]))
    && (r.state == Finished ==>
          && InSuccession(arrivals, m, s, n) && r.seqId == n + 1 && r.waitCf == last.now
          && r.len == |p| <= MAX_MSGBUF && rx.buf[..|p|] == p)
  }

  /** The expected frame is taken, and finishes the message if it is the last one. */
  lemma ExpectedTaken(rx: Receiver, id: nat, p: seq<byte>, k: nat, now: int)
    requires 8 <= |p| <= MAX_MSGBUF && ReceiverOk(rx) && 1 <= k <= CfCount(|p|)
    requires rx.msg.state == WaitData && rx.msg.len == |p| && rx.msg.seqId == k
    requires rx.buf[..6 + 7 * (k - 1)] == p[..6 + 7 * (k - 1)]
    requires !(Elapsed(now, rx.msg.waitCf) && k > 1)
    ensures |NthFrame(id, p, k).data| >= 1
    ensures var r := ReceiveConsecutive(rx, NthFrame(id, p, k).data, now);
            && r.msg.seqId == k + 1 && r.msg.len == |p| && r.msg.waitCf == now
            && r.msg.state == (if k == CfCount(|p|) then Finished else WaitData)
            && (k < CfCount(|p|) ==> r.buf[..6 + 7 * k] == p[..6 + 7 * k])
            && (k == CfCount(|p|) ==> r.buf[..|p|] == p)
  {
    FrameReceivable(id, p, k);
    var n := CfEnd(|p|, k) - CfStart(k);
    assert CfStart(k) == 6 + 7 * (k - 1) && n == if rx.msg.rest <= 7 then rx.msg.rest else 7;
    assert rx.msg.rest <= 7 <==> k == CfCount(|p|);
    StoredInOrder(rx.buf, id, p, k, n);
  }

  /** A frame that arrives where an earlier one is expected is taken only if 16
      or more were skipped, and then too few are left to finish. */
  lemma LaterTaken(rx: Receiver, id: nat, p: seq<byte>, k: nat, now: int)
    requires 8 <= |p| <= MAX_MSGBUF && ReceiverOk(rx) && rx.msg.seqId < k <= CfCount(|p|)
    requires rx.msg.state == WaitData && rx.msg.len == |p| && k % 16 == rx.msg.seqId % 16
    requires !(Elapsed(now, rx.msg.waitCf) && rx.msg.seqId > 1)
    ensures |NthFrame(id, p, k).data| >= 1
    ensures var r := ReceiveConsecutive(rx, NthFrame(id, p, k).data, now);
            r.msg == rx.msg.(waitCf := now, rest := rx.msg.rest - 7, seqId := rx.msg.seqId + 1)
  {
    FrameReceivable(id, p, k);
    assert rx.msg.rest > 7;
  }

  /** Any first frame starts over, whatever the receive half was doing. */
  lemma FirstStartsOver(rx: Receiver, id: nat, p: seq<byte>, now: int)
    requires 8 <= |p| <= MAX_MSGBUF && ReceiverOk(rx)
    ensures Receivable(NthFrame(id, p, 0).data)
    ensures var r := ReceiveReceiver(rx, NthFrame(id, p, 0).data, now);
            && r.msg.state == WaitData && r.msg.seqId == 1 && r.msg.len == |p| && r.buf[..6] == p[..6]
  {
    FrameReceivable(id, p, 0);
  }

  lemma RestartProgress(rx: Receiver, id: nat, p: seq<byte>, arrivals: seq<Arrival>, m: nat)
    requires 8 <= |p| <= MAX_MSGBUF && m < |arrivals| && arrivals[m].frame == 0 && ReceiverOk(rx)
    ensures Receivable(NthFrame(id, p, 0).data)
    ensures Progress(ReceiveReceiver(rx, NthFrame(id, p, 0).data, arrivals[m].now), p, arrivals, m + 1, m)
  {
    FirstStartsOver(rx, id, p, arrivals[m].now);
    hide ReceiveReceiver, NthFrame, Receivable;
  }

  /** A consecutive frame at a receive half that waits for one. */
  lemma WaitingProgress(rx: Receiver, id: nat, p: seq<byte>, arrivals: seq<Arrival>, m: nat, s: nat)
    requires 8 <= |p| <= MAX_MSGBUF && 1 <= m < |arrivals| && Progress(rx, p, arrivals, m, s)
    requires rx.msg.state == WaitData && arrivals[m - 1].frame <= arrivals[m].frame
    requires 1 <= arrivals[m].frame <= CfCount(|p|)
    requires !(Elapsed(arrivals[m].now, rx.msg.waitCf) && rx.msg.seqId > 1)
    requires arrivals[m].frame % 16 == rx.msg.seqId % 16
    ensures |NthFrame(id, p, arrivals[m].frame).data| >= 1
    ensures var d := NthFrame(id, p, arrivals[m].frame).data;
            Progress(ReceiveConsecutive(rx, d, arrivals[m].now), p, arrivals, m + 1, s)
  {
    var a, k := arrivals[m], rx.msg.seqId;
    assert a.frame >= k;
    if a.frame == k {
      assert arrivals[m - 1].frame == k - 1;
      ExpectedTaken(rx, id, p, k, a.now);
      hide ReceiveConsecutive, NthFrame, Elapsed;
    } else {
      LaterTaken(rx, id, p, a.frame, a.now);
      hide ReceiveConsecutive, NthFrame, Elapsed, InSuccession;
    }
  }

  /** A consecutive frame that is not taken: the receive half gives up, or had nothing to wait for. */
  lemma RefusedProgress(rx: Receiver, p: seq<byte>, arrivals: seq<Arrival>, m: nat, s: nat, d: seq<byte>)
    requires |p| >= 8 && 1 <= m < |arrivals| && Progress(rx, p, arrivals, m, s) && |d| >= 1
    requires d[0] % 16 == arrivals[m].frame % 16
    requires rx.msg.state == WaitData ==>
               || (Elapsed(arrivals[m].now, rx.msg.waitCf) && rx.msg.seqId > 1)
               || arrivals[m].frame % 16 != rx.msg.seqId % 16
    ensures Progress(ReceiveConsecutive(rx, d, arrivals[m].now), p, arrivals, m + 1, s)
  {
  }

  lemma ArrivalProgress(rx: Receiver, id: nat, p: seq<byte>, arrivals: seq<Arrival>, m: nat, s: nat) returns (s': nat)
    requires 8 <= |p| <= MAX_MSGBUF && InOrder(arrivals, CfCount(|p|)) && 1 <= m < |arrivals|
    requires Progress(rx, p, arrivals, m, s)
    ensures var d := NthFrame(id, p, arrivals[m].frame).data;
            Receivable(d) && Progress(ReceiveReceiver(rx, d, arrivals[m].now), p, arrivals, m + 1, s')
  {
    var a, r := arrivals[m], rx.msg;
    assert arrivals[m - 1].frame <= a.frame <= CfCount(|p|);
    FrameReceivable(id, p, a.frame);
    var d := NthFrame(id, p, a.frame).data;
    assert a.frame > 0 ==> ReceiveReceiver(rx, d, a.now) == ReceiveConsecutive(rx, d, a.now);
    hide ReceiveReceiver, ReceiveConsecutive, NthFrame, Receivable, Progress, FrameType;
    s' := s;
    if a.frame == 0 {
      RestartProgress(rx, id, p, arrivals, m);
      s' := m;
    } else if r.state == WaitData && !(Elapsed(a.now, r.waitCf) && r.seqId > 1) && a.frame % 16 == r.seqId % 16 {
      WaitingProgress(rx, id, p, arrivals, m, s);
    } else {
      RefusedProgress(rx, p, arrivals, m, s, d);
    }
  }

  lemma {:induction false} DeliveredProgress(rx: Receiver, id: nat, p: seq<byte>, arrivals: seq<Arrival>, m: nat)
    returns (s: nat)
    requires ReceiverOk(rx) && 8 <= |p| <= MAX_MSGBUF && InOrder(arrivals, CfCount(|p|))
    requires 1 <= m <= |arrivals| && arrivals[0].frame == 0
    ensures Progress(Deliver(rx, id, p, arrivals[..m]), p, arrivals, m, s)
  {
    hide Progress, Deliver, ReceiveReceiver, NthFrame, Receivable;
    DeliverNext(rx, id, p, arrivals, m - 1);
    if m == 1 {
      s := 0;
      RestartProgress(Deliver(rx, id, p, arrivals[..0]), id, p, arrivals, 0);
    } else {
      var before := DeliveredProgress(rx, id, p, arrivals, m - 1);
      s := ArrivalProgress(Deliver(rx, id, p, arrivals[..m - 1]), id, p, arrivals, m - 1, before);
    }
  }

  /** Where the receive half stands m arrivals into a delivery in succession from arrival s on. */
  ghost predicate Following(rx: Receiver, p: seq<byte>, arrivals: seq<Arrival>, m: nat, s: nat)
    requires |p| >= 8 && s < m <= |arrivals|
  {
    var k, n := m - 1 - s, CfCount(|p|);
    && ReceiverOk(rx) && (k > 0 ==> rx.msg.waitCf == arrivals[m - 1].now)
    && rx.msg.state == (if k < n then WaitData else Finished)
    && rx.msg.seqId == (if k < n then k + 1 else n + 1) && rx.msg.len == |p|
    && (k < n ==> rx.buf[..6 + 7 * k] == p[..6 + 7 * k])
  }

  lemma FollowedFirst(rx: Receiver, id: nat, p: seq<byte>, arrivals: seq<Arrival>, s: nat)
    requires 8 <= |p| <= MAX_MSGBUF && s < |arrivals| && arrivals[s].frame == 0 && ReceiverOk(rx)
    ensures Receivable(NthFrame(id, p, 0).data)
    ensures Following(ReceiveReceiver(rx, NthFrame(id, p, 0).data, arrivals[s].now), p, arrivals, s + 1, s)
  {
    FirstStartsOver(rx, id, p, arrivals[s].now);
    hide ReceiveReceiver, NthFrame, Receivable;
  }

  lemma FollowedNext(rx: Receiver, id: nat, p: seq<byte>, arrivals: seq<Arrival>, s: nat, m: nat)
    requires 8 <= |p| <= MAX_MSGBUF && s + 1 <= m < |arrivals| && Following(rx, p, arrivals, m, s)
    requires var n := CfCount(|p|); arrivals[m].frame == if m - s <= n then m - s else n
    requires m >= s + 2 ==> !Elapsed(arrivals[m].now, arrivals[m - 1].now)
    ensures Receivable(NthFrame(id, p, arrivals[m].frame).data)
    ensures var d := NthFrame(id, p, arrivals[m].frame).data;
            Following(ReceiveReceiver(rx, d, arrivals[m].now), p, arrivals, m + 1, s)
  {
    var k, a := m - s, arrivals[m];
    FrameReceivable(id, p, a.frame);
    var d := NthFrame(id, p, a.frame).data;
    assert ReceiveReceiver(rx, d, a.now) == ReceiveConsecutive(rx, d, a.now);
    if k <= CfCount(|p|) {
      ExpectedTaken(rx, id, p, k, a.now);
      hide ReceiveReceiver, ReceiveConsecutive, NthFrame, Elapsed, Receivable;
    }
  }

  lemma ArrivalInSuccession(arrivals: seq<Arrival>, n: nat, s: nat, m: nat)
    requires InOrder(arrivals, n) && InSuccession(arrivals, |arrivals|, s, n) && s <= m < |arrivals|
    ensures arrivals[m].frame == if m - s <= n then m - s else n
    ensures m >= s + 2 ==> !Elapsed(arrivals[m].now, arrivals[m - 1].now)
  {
    hide Elapsed;
    assert arrivals[s + n].frame == n;
  }

  lemma {:induction false} SuccessionFollowed(rx: Receiver, id: nat, p: seq<byte>, arrivals: seq<Arrival>, s: nat,
                                              m: nat)
    requires ReceiverOk(rx) && 8 <= |p| <= MAX_MSGBUF && InOrder(arrivals, CfCount(|p|))
    requires InSuccession(arrivals, |arrivals|, s, CfCount(|p|)) && s < m <= |arrivals|
    ensures Following(Deliver(rx, id, p, arrivals[..m]), p, arrivals, m, s)
    decreases m
  {
    hide Deliver, NthFrame, Receivable, Following, Elapsed, CfCount, ReceiveReceiver, InSuccession;
    ArrivalInSuccession(arrivals, CfCount(|p|), s, m - 1);
    DeliverNext(rx, id, p, arrivals, m - 1);
    if m == s + 1 {
      FollowedFirst(Deliver(rx, id, p, arrivals[..m - 1]), id, p, arrivals, s);
    } else {
      SuccessionFollowed(rx, id, p, arrivals, s, m - 1);
      FollowedNext(Deliver(rx, id, p, arrivals[..m - 1]), id, p, arrivals, s, m - 1);
    }
  }

  /** A message whose first frame arrives is finished exactly if its frames are
      delivered one directly after another, each in time, and nothing late
      follows: any lost, repeated or late frame in between prevents it. What is
      finished is the payload, whatever the receive half did before. */
  lemma FinishedIffInSuccession(rx: Receiver, id: nat, p: seq<byte>, arrivals: seq<Arrival>)
    requires ReceiverOk(rx) && 8 <= |p| <= MAX_MSGBUF && InOrder(arrivals, CfCount(|p|))
    requires arrivals != [] && arrivals[0].frame == 0
    ensures var r := Deliver(rx, id, p, arrivals);
            && r.msg.state in {WaitData, Finished, Idle}
            && (r.msg.state == Finished <==> exists s :: InSuccession(arrivals, |arrivals|, s, CfCount(|p|)))
            && (r.msg.state == Finished ==> r.msg.len == |p| && r.buf[..|p|] == p)
  {
    assert arrivals[..|arrivals|] == arrivals;
    var s := DeliveredProgress(rx, id, p, arrivals, |arrivals|);
    if t :| InSuccession(arrivals, |arrivals|, t, CfCount(|p|)) {
      SuccessionFollowed(rx, id, p, arrivals, t, |arrivals|);
    }
  }

  lemma {:induction false} NothingTaken(rx: Receiver, id: nat, p: seq<byte>, arrivals: seq<Arrival>)
    requires ReceiverOk(rx) && rx.msg.state != WaitData && 8 <= |p| <= MAX_MSGBUF
    requires forall i | 0 <= i < |arrivals| :: 1 <= arrivals[i].frame <= CfCount(|p|)
    ensures var r := Deliver(rx, id, p, arrivals);
            && (r.msg.state == rx.msg.state || r.msg.state == Idle)
            && r.buf == rx.buf && r.msg.len == rx.msg.len
  {
    if arrivals != [] {
      var last := arrivals[|arrivals| - 1];
      NothingTaken(rx, id, p, arrivals[..|arrivals| - 1]);
      FrameReceivable(id, p, last.frame);
    }
  }

  /** The outcome is right: what is finished is this payload, or an older message left as it was. */
  predicate Right(before: Receiver, after: Receiver, p: seq<byte>) {
    after.msg.state == Finished ==>
      || (after.msg.len == |p| <= |after.buf| && after.buf[..|p|] == p)
      || (before.msg.state == Finished && after.msg.len == before.msg.len && after.buf == before.buf)
  }

  /** Lost, repeated and late frames never produce wrong data: whatever arrives of
      a message, in the order it was sent, a receive half that is not waiting for
      the rest of another message, or gets the first frame first, ends idle, still
      waiting, with exactly the payload delivered in succession, or, if no first
      frame arrived, with the finished message it had. */
  lemma NeverWrongData(rx: Receiver, id: nat, p: seq<byte>, arrivals: seq<Arrival>)
    requires ReceiverOk(rx) && 8 <= |p| <= MAX_MSGBUF && InOrder(arrivals, CfCount(|p|))
    requires rx.msg.state != WaitData || (arrivals != [] && arrivals[0].frame == 0)
    ensures var r := Deliver(rx, id, p, arrivals);
            && Right(rx, r, p)
            && (r.msg.state in {WaitData, Finished, Idle} || r.msg.state == rx.msg.state)
            && (r.msg.state == Finished ==>
                  || (r.msg.len == |p| && r.buf[..|p|] == p
                      && exists s :: InSuccession(arrivals, |arrivals|, s, CfCount(|p|)))
                  || (rx.msg.state == Finished && r.msg.len == rx.msg.len && r.buf == rx.buf
                      && forall i | 0 <= i < |arrivals| :: arrivals[i].frame != 0))
  {
    if arrivals != [] && arrivals[0].frame == 0 {
      FinishedIffInSuccession(rx, id, p, arrivals);
    } else {
      forall i | 0 <= i < |arrivals| ensures 1 <= arrivals[i].frame <= CfCount(|p|) {
        assert i > 0 ==> arrivals[0].frame <= arrivals[i].frame;
      }
      NothingTaken(rx, id, p, arrivals);
    }
  }

  // ---- Which receive halves can be misled ----

  ghost predicate Harmless(rx: Receiver)
    requires ReceiverOk(rx)
  {
    forall id: nat, p: seq<byte>, arrivals: seq<Arrival> ::
      8 <= |p| <= MAX_MSGBUF && InOrder(arrivals, CfCount(|p|)) ==> Right(rx, Deliver(rx, id, p, arrivals), p)
  }

  /** Consecutive frames enough for what a waiting receive half still expects. */
  function Missing(rest: nat): nat {
    if rest <= 7 then 1 else (rest + 6) / 7
  }

  lemma StaleTakesOne(rx: Receiver, p: seq<byte>, now: int)
    requires ReceiverOk(rx) && rx.msg.state == WaitData && |p| == MAX_MSGBUF && rx.msg.seqId <= CfCount(|p|)
    requires !Elapsed(now, rx.msg.waitCf)
    ensures Receivable(NthFrame(0, p, rx.msg.seqId).data)
    ensures var r := ReceiveReceiver(rx, NthFrame(0, p, rx.msg.seqId).data, now);
            && r.buf[0] == rx.buf[0] && r.msg.waitCf == now && r.msg.seqId == rx.msg.seqId + 1
            && r.msg.state == (if rx.msg.rest <= 7 then Finished else WaitData)
            && (rx.msg.rest > 7 ==> r.msg.rest == rx.msg.rest - 7)
  {
    FrameReceivable(0, p, rx.msg.seqId);
  }

  lemma MissingFrames(rest: nat, j: nat)
    requires j < Missing(rest)
    ensures rest >= 7 * j && (rest - 7 * j <= 7 <==> j + 1 == Missing(rest))
  {
  }

  /** How a waiting receive half stands once it has taken j frames in sequence. */
  ghost predicate StaleAfter(rx: Receiver, r: Receiver, j: nat)
    requires ReceiverOk(rx)
  {
    && ReceiverOk(r) && r.buf[0] == rx.buf[0] && r.msg.waitCf == rx.msg.waitCf
    && (j < Missing(rx.msg.rest) ==>
          r.msg.state == WaitData && r.msg.seqId == rx.msg.seqId + j && r.msg.rest == rx.msg.rest - 7 * j)
    && (j == Missing(rx.msg.rest) ==> r.msg.state == Finished)
  }

  lemma StaleTakesNext(rx: Receiver, r: Receiver, p: seq<byte>, j: nat)
    requires ReceiverOk(rx) && |p| == MAX_MSGBUF && j < Missing(rx.msg.rest) && StaleAfter(rx, r, j)
    requires rx.msg.seqId + Missing(rx.msg.rest) - 1 <= CfCount(|p|) && rx.msg.seqId >= 1
    ensures Receivable(NthFrame(0, p, rx.msg.seqId + j).data)
    ensures StaleAfter(rx, ReceiveReceiver(r, NthFrame(0, p, rx.msg.seqId + j).data, rx.msg.waitCf), j + 1)
  {
    MissingFrames(rx.msg.rest, j);
    StaleTakesOne(r, p, rx.msg.waitCf);
    hide ReceiveReceiver, Receivable, NthFrame, Missing;
  }

  lemma StaleBefore(rx: Receiver)
    requires ReceiverOk(rx) && rx.msg.state == WaitData
    ensures StaleAfter(rx, rx, 0)
  {
  }

  lemma {:induction false} StaleTakes(rx: Receiver, p: seq<byte>, arrivals: seq<Arrival>, j: nat)
    requires ReceiverOk(rx) && rx.msg.state == WaitData && |p| == MAX_MSGBUF
    requires |arrivals| == Missing(rx.msg.rest) && j <= |arrivals| && rx.msg.seqId + |arrivals| - 1 <= CfCount(|p|)
    requires forall i | 0 <= i < |arrivals| :: arrivals[i] == Arrival(rx.msg.seqId + i, rx.msg.waitCf)
    ensures StaleAfter(rx, Deliver(rx, 0, p, arrivals[..j]), j)
  {
    hide Deliver, ReceiveReceiver, Receivable, NthFrame, StaleAfter, CfCount;
    if j == 0 {
      DeliverNone(rx, 0, p, arrivals);
      StaleBefore(rx);
    } else {
      StaleTakes(rx, p, arrivals, j - 1);
      DeliverNext(rx, 0, p, arrivals, j - 1);
      StaleTakesNext(rx, Deliver(rx, 0, p, arrivals[..j - 1]), p, j - 1);
    }
  }

  /** Every receive half that waits for the rest of a message can be led to finish
      with a mixture: the consecutive frames of another message, whose first
      frame was lost, are taken for the missing ones. */
  lemma StaleReceiverMisled(rx: Receiver) returns (p: seq<byte>, arrivals: seq<Arrival>)
    requires ReceiverOk(rx) && rx.msg.state == WaitData
    ensures 8 <= |p| <= MAX_MSGBUF && InOrder(arrivals, CfCount(|p|))
    ensures !Right(rx, Deliver(rx, 0, p, arrivals), p)
  {
    var m := rx.msg;
    var other: byte := if rx.buf[0] == 0 then 1 else 0;
    p := seq<byte>(MAX_MSGBUF, _ => other);
    arrivals := seq(Missing(m.rest), i requires 0 <= i < Missing(m.rest) => Arrival(m.seqId + i, m.waitCf));
    hide ReceiveReceiver, Receivable, NthFrame;
    StaleTakes(rx, p, arrivals, |arrivals|);
    assert arrivals[..|arrivals|] == arrivals;
    var r := Deliver(rx, 0, p, arrivals);
    assert r.buf[..|p|][0] == r.buf[0] != p[0];
  }

  /** Exactly the receive halves that are not waiting for the rest of a message are
      safe from every message, whatever of it arrives. */
  lemma HarmlessIffNotWaiting(rx: Receiver)
    requires ReceiverOk(rx)
    ensures Harmless(rx) <==> rx.msg.state != WaitData
  {
    if rx.msg.state == WaitData {
      var p, arrivals := StaleReceiverMisled(rx);
    } else {
      forall id: nat, p: seq<byte>, arrivals: seq<Arrival>
        | 8 <= |p| <= MAX_MSGBUF && InOrder(arrivals, CfCount(|p|))
        ensures Right(rx, Deliver(rx, id, p, arrivals), p)
      {
        NeverWrongData(rx, id, p, arrivals);
      }
    }
  }

  /** Such a receive half does arise: it has taken the first frame of an older
      message when the rest of it is lost. */
  lemma StaleReassemblyMixesMessages()
    ensures var older: seq<byte> := seq(8, _ => 1);
            var newer: seq<byte> := seq(8, _ => 2);
            var blank := Receiver(RxMsg(Idle, 0, 1, 0, 0), seq(MAX_MSGBUF, _ => 0));
            var stale := Deliver(blank, 0, older, [Arrival(0, 0)]);
            var r := Deliver(stale, 0, newer, [Arrival(1, 0)]);
            r.msg.state == Finished && r.buf[..8] != newer && r.buf[..8] != older
  {
    var older: seq<byte> := seq(8, _ => 1);
    var newer: seq<byte> := seq(8, _ => 2);
    var blank := Receiver(RxMsg(Idle, 0, 1, 0, 0), seq(MAX_MSGBUF, _ => 0));
    var stale := Deliver(blank, 0, older, [Arrival(0, 0)]);
    FrameReceivable(0, older, 0);
    FrameReceivable(0, newer, 1);
    assert Deliver(blank, 0, older, []) == blank && Deliver(stale, 0, newer, []) == stale;
    assert stale.buf[..6] == older[..6];
    var r := Deliver(stale, 0, newer, [Arrival(1, 0)]);
    assert [Arrival(1, 0)][..0] == [];
    assert r.buf[6..8] == newer[6..8];
    assert r.buf[..8][0] == 1 && r.buf[..8][6] == 2;
  }
}
