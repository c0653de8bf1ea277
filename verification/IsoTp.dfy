/** One ISO 15765-2 endpoint: the state the code keeps, the effect of every
    operation on that state as a function, and the imperative endpoint itself. */
module IsoTp {
  import opened Bytes

  const MAX_MSGBUF := 128
  const TIMEOUT_FC := 250
  const MAX_FCWAIT_FRAME := 10
  // Millisecond counters are 32 bits wide and wrap.
  const CLOCK_MODULUS := 0x1_0000_0000

  // N_PCI type, the high nibble of the first byte of a frame.
  const PCI_SF := 0
  const PCI_FF := 1
  const PCI_CF := 2
  const PCI_FC := 3

  const FC_CTS := 0
  const FC_WT := 1

  datatype TpState = Idle | Send | SendFF | SendCF | WaitFirstFC | WaitFC | WaitData | Finished | Error

  /** What the transport fills in of a bus message; everything else keeps its default. */
  datatype CanFrame = CanFrame(id: nat, data: seq<byte>)

  /** What the bus driver has taken so far, and how it will answer the next
      offers. Once the list of answers is used up, every offer is taken. */
  datatype Transport = Transport(sent: seq<CanFrame>, answers: seq<bool>) {
    predicate Accepts() { answers == [] || answers[0] }

    function Offer(m: CanFrame): Transport {
      Transport(if Accepts() then sent + [m] else sent, if answers == [] then [] else answers[1..])
    }
  }

  /** The transmit record without its buffer. */
  datatype TxMsg = TxMsg(state: TpState, seqId: nat, blockSize: byte, minSepTime: byte, waitFrames: nat, waitFc: int)

  /** The receive record without its buffer. */
  datatype RxMsg = RxMsg(state: TpState, len: nat, seqId: nat, rest: nat, waitCf: int)

  /** The transmit half; `pending` is the buffer from its moving pointer on, as far as the length left. */
  datatype Sender = Sender(msg: TxMsg, pending: seq<byte>)

  datatype Receiver = Receiver(msg: RxMsg, buf: seq<byte>)

  datatype Endpoint = Endpoint(tx: Sender, rx: Receiver, out: Transport, txId: nat, rxId: nat)

  // ---- Frames ----

  function SingleFrame(id: nat, p: seq<byte>): CanFrame
    requires |p| <= 7
  {
    CanFrame(id, [|p|] + p)
  }

  function FirstFrame(id: nat, p: seq<byte>): CanFrame
    requires |p| >= 6
  {
    CanFrame(id, [16 * PCI_FF + |p| / 256 % 16, |p| % 256] + p[..6])
  }

  function ConsecutiveFrame(id: nat, seqId: nat, p: seq<byte>): CanFrame {
    CanFrame(id, [16 * PCI_CF + seqId % 16] + if |p| > 7 then p[..7] else p)
  }

  function FlowControl(id: nat): CanFrame {
    CanFrame(id, [16 * PCI_FC + FC_CTS, 0, 0])
  }

  function FrameType(data: seq<byte>): nat
    requires |data| >= 1
  {
    data[0] / 16
  }

  function FirstFrameLength(data: seq<byte>): nat
    requires 1 <= |data|
  {
    data[0] % 16 * 256 + Padded(data, 1)
  }

  /** Byte i of the 8-byte receive scratch buffer, cleared after every frame. */
  function Padded(data: seq<byte>, i: nat): byte {
    if i < |data| then data[i] else 0
  }

  function PaddedSlice(data: seq<byte>, from: nat, n: nat): (r: seq<byte>)
    ensures |r| == n
  {
    seq<byte>(n, i requires 0 <= i < n => Padded(data, from + i))
  }

  /** What the driver may hand to Receive without overrunning a buffer. */
  predicate Receivable(data: seq<byte>) {
    && 1 <= |data| <= 8
    && (FrameType(data) == PCI_SF ==> data[0] % 16 <= 7)
    && (FrameType(data) == PCI_FF ==> 6 <= FirstFrameLength(data) <= MAX_MSGBUF)
  }

  // ---- Transmit half ----

  function ClampSepTime(t: byte): byte {
    if t > 0x7F && (t < 0xF1 || t > 0xF9) then 0x7F else t
  }

  predicate Elapsed(now: int, since: int) {
    (now - since) % CLOCK_MODULUS >= TIMEOUT_FC
  }

  predicate Free(state: TpState) { state == Idle || state == Error }

  function SendTo(tx: Sender, payload: seq<byte>): Sender {
    if Free(tx.msg.state) then Sender(tx.msg.(state := Send), payload) else tx
  }

  predicate BlockBoundary(seqId: nat, blockSize: byte) {
    blockSize > 0 && seqId % blockSize == 0
  }

  /** The transmit record once a consecutive frame that is not the last has been taken. */
  function AfterCf(m: TxMsg): TxMsg {
    m.(seqId := (m.seqId + 1) % 16, state := if BlockBoundary(m.seqId, m.blockSize) then WaitFC else m.state)
  }

  /** One call of Process in state SendCF: consecutive frames up to a block
      boundary, or up to and including the last one. A refused frame is offered
      again, except the last one. */
  function CfBurst(tx: Sender, out: Transport, id: nat): (Sender, Transport)
    decreases |tx.pending|, |out.answers|
  {
    var out' := out.Offer(ConsecutiveFrame(id, tx.msg.seqId, tx.pending));
    if |tx.pending| <= 7 then
      (tx.(msg := tx.msg.(state := Idle)), out')
    else if !out.Accepts() then
      CfBurst(tx, out', id)
    else
      var next := Sender(AfterCf(tx.msg), tx.pending[7..]);
      if BlockBoundary(tx.msg.seqId, tx.msg.blockSize) then (next, out') else CfBurst(next, out', id)
  }

  function ProcessSender(tx: Sender, out: Transport, id: nat, now: int): (Sender, Transport) {
    match tx.msg.state
    case Send =>
      if |tx.pending| <= 7 then
        (tx.(msg := tx.msg.(state := Idle)), out.Offer(SingleFrame(id, tx.pending)))
      else
        var out' := out.Offer(FirstFrame(id, tx.pending));
        if out.Accepts() then
          (Sender(tx.msg.(seqId := 1, state := WaitFirstFC, waitFrames := 0, waitFc := now), tx.pending[6..]), out')
        else
          (tx.(msg := tx.msg.(seqId := 1)), out')
    case WaitFirstFC => (if Elapsed(now, tx.msg.waitFc) then tx.(msg := tx.msg.(state := Idle)) else tx, out)
    case SendCF => CfBurst(tx, out, id)
    case _ => (tx, out)
  }

  function ReceiveFlowControl(m: TxMsg, data: seq<byte>): TxMsg
    requires |data| >= 1
  {
    if m.state != WaitFC && m.state != WaitFirstFC then m else
    var tuned := if m.state == WaitFirstFC
                 then m.(blockSize := Padded(data, 1), minSepTime := ClampSepTime(Padded(data, 2)))
                 else m;
    if data[0] % 16 == FC_CTS then tuned.(state := SendCF)
    else if data[0] % 16 == FC_WT then
      if m.waitFrames + 1 >= MAX_FCWAIT_FRAME
      then tuned.(waitFrames := 0, state := Idle)
      else tuned.(waitFrames := m.waitFrames + 1)
    else tuned.(state := Idle)
  }

  // ---- Receive half ----

  /** The receive state a caller of Receive can rely on: a message that is being
      reassembled has its first 6 + 7 * (seqId - 1) bytes stored and `rest` to come. */
  predicate ReceiverOk(rx: Receiver) {
    && |rx.buf| == MAX_MSGBUF
    && CountsAgree(rx.msg)
  }

  predicate CountsAgree(m: RxMsg) {
    m.state == WaitData ==> m.seqId >= 1 && m.len <= MAX_MSGBUF && m.len == 6 + 7 * (m.seqId - 1) + m.rest
  }

  function Store(buf: seq<byte>, at: nat, bytes: seq<byte>): (r: seq<byte>)
    requires at + |bytes| <= |buf|
    ensures |r| == |buf|
    ensures r[..at] == buf[..at] && r[at..at + |bytes|] == bytes
  {
    buf[..at] + bytes + buf[at + |bytes|..]
  }

  function ReceiveSingle(rx: Receiver, data: seq<byte>): (r: Receiver)
    requires ReceiverOk(rx) && Receivable(data) && FrameType(data) == PCI_SF
    ensures ReceiverOk(r)
  {
    var n := data[0] % 16;
    Receiver(rx.msg.(state := Finished, len := n), Store(rx.buf, 0, PaddedSlice(data, 1, n)))
  }

  function ReceiveFirst(rx: Receiver, data: seq<byte>): (r: Receiver)
    requires ReceiverOk(rx) && Receivable(data) && FrameType(data) == PCI_FF
    ensures ReceiverOk(r)
  {
    var n := FirstFrameLength(data);
    Receiver(rx.msg.(state := WaitData, seqId := 1, len := n, rest := n - 6),
             Store(rx.buf, 0, PaddedSlice(data, 2, 6)))
  }

  function ReceiveConsecutive(rx: Receiver, data: seq<byte>, now: int): (r: Receiver)
    requires ReceiverOk(rx) && |data| >= 1
    ensures ReceiverOk(r)
  {
    var m := rx.msg;
    if Elapsed(now, m.waitCf) && m.seqId > 1 then rx.(msg := m.(state := Idle))
    else if m.state != WaitData then rx.(msg := m.(waitCf := now))
    else if data[0] % 16 != m.seqId % 16 then rx.(msg := m.(waitCf := now, state := Idle, seqId := 1))
    else
      var at := 6 + 7 * (m.seqId - 1);
      if m.rest <= 7 then
        Receiver(m.(waitCf := now, state := Finished, seqId := m.seqId + 1),
                 Store(rx.buf, at, PaddedSlice(data, 1, m.rest)))
      else
        Receiver(m.(waitCf := now, rest := m.rest - 7, seqId := m.seqId + 1),
                 Store(rx.buf, at, PaddedSlice(data, 1, 7)))
  }

  function ReceiveReceiver(rx: Receiver, data: seq<byte>, now: int): (r: Receiver)
    requires ReceiverOk(rx) && Receivable(data)
    ensures ReceiverOk(r)
  {
    if FrameType(data) == PCI_SF then ReceiveSingle(rx, data)
    else if FrameType(data) == PCI_FF then ReceiveFirst(rx, data)
    else if FrameType(data) == PCI_CF then ReceiveConsecutive(rx, data, now)
    else rx
  }

  // ---- The whole endpoint ----

  function ProcessEndpoint(e: Endpoint, now: int): Endpoint {
    var (tx, out) := ProcessSender(e.tx, e.out, e.txId, now);
    e.(tx := tx, out := out)
  }

  /** Answering a first frame overwrites the block parameters of the transmit half. */
  function ReceiveEndpoint(e: Endpoint, now: int, canId: nat, data: seq<byte>): (r: Endpoint)
    requires ReceiverOk(e.rx) && Receivable(data)
    ensures ReceiverOk(r.rx)
  {
    if canId != e.rxId then e
    else if FrameType(data) == PCI_FC then e.(tx := e.tx.(msg := ReceiveFlowControl(e.tx.msg, data)))
    else if FrameType(data) == PCI_FF then
      e.(rx := ReceiveReceiver(e.rx, data, now),
         tx := e.tx.(msg := e.tx.msg.(blockSize := 0, minSepTime := 0)),
         out := e.out.Offer(FlowControl(e.txId)))
    else e.(rx := ReceiveReceiver(e.rx, data, now))
  }

  class CanInterface {
    var sent: seq<CanFrame>
    var answers: seq<bool>

    function Model(): Transport
      reads this
    {
      Transport(sent, answers)
    }

    method SendMessage(m: CanFrame) returns (ok: bool)
      modifies this
      ensures ok == old(Model().Accepts())
      ensures Model() == old(Model().Offer(m))
    {
      ok := answers == [] || answers[0];
      if ok {
        sent := sent + [m];
      }
      if answers != [] {
        answers := answers[1..];
      }
    }
  }

  class IsoTpFrame {
    const can: CanInterface
    var txId: nat
    var rxId: nat

    // The transmit buffer with its moving pointer, as an offset, and the length left.
    const txBuffer: array<byte>
    var txOffset: nat
    var txLen: nat
    var txMsg: TxMsg

    const rxBuffer: array<byte>
    var rxMsg: RxMsg

    ghost predicate Valid()
      reads this
    {
      && txBuffer.Length == MAX_MSGBUF && rxBuffer.Length == MAX_MSGBUF && txBuffer != rxBuffer
      && txOffset + txLen <= MAX_MSGBUF
      && CountsAgree(rxMsg)
    }

    ghost function Pending(): seq<byte>
      requires txOffset + txLen <= txBuffer.Length
      reads this`txOffset, this`txLen, txBuffer
    {
      txBuffer[txOffset..txOffset + txLen]
    }

    ghost function Model(): Endpoint
      requires Valid()
      reads this, txBuffer, rxBuffer, can
    {
      Endpoint(Sender(txMsg, Pending()), Receiver(rxMsg, rxBuffer[..]), can.Model(), txId, rxId)
    }

    constructor (can: CanInterface, txId: nat, rxId: nat)
      ensures Valid() && fresh(txBuffer) && fresh(rxBuffer) && txBuffer.Length == 128 && rxBuffer.Length == 128
      ensures this.can == can && this.txId == txId && this.rxId == rxId
      ensures txMsg.state == Idle && rxMsg.state == Idle
    {
      this.can := can;
      this.txId, this.rxId := txId, rxId;
      txBuffer := new byte[MAX_MSGBUF](_ => 0);
      rxBuffer := new byte[MAX_MSGBUF](_ => 0);
      txOffset, txLen := 0, 0;
      txMsg := TxMsg(Idle, 1, 0, 0, 0, 0);
      rxMsg := RxMsg(Idle, 0, 1, 0, 0);
    }

    method SetIds(txId: nat, rxId: nat)
      requires Valid()
      modifies this`txId, this`rxId, this`txMsg, this`rxMsg
      ensures Valid() && this.txId == txId && this.rxId == rxId
      ensures txMsg == old(txMsg).(state := Idle) && rxMsg == old(rxMsg).(state := Idle)
    {
      this.txId, this.rxId := txId, rxId;
      txMsg := txMsg.(state := Idle);
      rxMsg := rxMsg.(state := Idle);
    }

    method Send(bytes: seq<byte>) returns (ok: bool)
      requires Valid() && |bytes| <= MAX_MSGBUF
      modifies this`txOffset, this`txLen, this`txMsg, txBuffer
      ensures Valid()
      ensures ok == (old(txMsg.state) in {Idle, Error})
      ensures Model() == old(Model()).(tx := SendTo(old(Model()).tx, bytes))
    {
      if !Free(txMsg.state) {
        return false;
      }
      txOffset := 0;
      txMsg := txMsg.(state := TpState.Send);
      txLen := |bytes|;
      forall i | 0 <= i < |bytes| {
        txBuffer[i] := bytes[i];
      }
      assert Pending() == bytes;
      return true;
    }

    method SendFc() returns (ok: bool)
      modifies this`txMsg, can
      ensures txMsg == old(txMsg).(blockSize := 0, minSepTime := 0)
      ensures can.Model() == old(can.Model()).Offer(FlowControl(txId))
    {
      txMsg := txMsg.(blockSize := 0, minSepTime := 0);
      ok := can.SendMessage(CanFrame(txId, [16 * PCI_FC + FC_CTS, txMsg.blockSize, ClampSepTime(txMsg.minSepTime)]));
    }

    method SendSf() returns (ok: bool)
      requires Valid() && txLen <= 7
      modifies can
      ensures can.Model() == old(can.Model()).Offer(SingleFrame(txId, Pending()))
    {
      ok := can.SendMessage(CanFrame(txId, [txLen] + txBuffer[txOffset..txOffset + txLen]));
    }

    method SendFf() returns (ok: bool)
      requires Valid() && txLen > 7
      modifies this`txMsg, can
      ensures txMsg == old(txMsg).(seqId := 1) && ok == old(can.Model()).Accepts()
      ensures can.Model() == old(can.Model()).Offer(FirstFrame(txId, Pending()))
    {
      txMsg := txMsg.(seqId := 1);
      assert Pending()[..6] == txBuffer[txOffset..txOffset + 6];
      ok := can.SendMessage(
        CanFrame(txId, [16 * PCI_FF + txLen / 256 % 16, txLen % 256] + txBuffer[txOffset..txOffset + 6]));
    }

    method SendCf() returns (ok: bool)
      requires Valid()
      modifies can
      ensures ok == old(can.Model()).Accepts()
      ensures can.Model() == old(can.Model()).Offer(ConsecutiveFrame(txId, txMsg.seqId, Pending()))
    {
      var len := if txLen > 7 then 7 else txLen;
      assert Pending()[..len] == txBuffer[txOffset..txOffset + len];
      ok := can.SendMessage(CanFrame(txId, [16 * PCI_CF + txMsg.seqId % 16] + txBuffer[txOffset..txOffset + len]));
    }

    /** Moves the transmit pointer. */
    method Skip(n: nat)
      requires Valid() && n <= txLen
      modifies this`txOffset, this`txLen
      ensures Valid() && txLen == old(txLen) - n && Pending() == old(Pending())[n..]
    {
      txOffset := txOffset + n;
      txLen := txLen - n;
    }

    method Process(now: int)
      requires Valid()
      modifies this`txOffset, this`txLen, this`txMsg, can
      ensures Valid()
      ensures Model() == ProcessEndpoint(old(Model()), now)
    {
      match txMsg.state {
        case Send =>
          StartSending(now);
        case WaitFirstFC =>
          if Elapsed(now, txMsg.waitFc) {
            txMsg := txMsg.(state := Idle);
          }
        case SendCF =>
          SendConsecutive();
        case _ =>
      }
    }

    method StartSending(now: int)
      requires Valid() && txMsg.state == TpState.Send
      modifies this`txOffset, this`txLen, this`txMsg, can
      ensures Valid()
      ensures (Sender(txMsg, Pending()), can.Model())
           == ProcessSender(Sender(old(txMsg), old(Pending())), old(can.Model()), txId, now)
    {
      if txLen <= 7 {
        var _ := SendSf();
        txMsg := txMsg.(state := Idle);
      } else {
        var ok := SendFf();
        if ok {
          Skip(6);
          txMsg := txMsg.(state := WaitFirstFC, waitFrames := 0, waitFc := now);
        }
      }
    }

    /** One round of the block loop; a refused frame leaves the transmit half as it was. */
    method SendBlockCf() returns (blockBoundary: bool)
      requires Valid() && txLen > 7
      modifies this`txOffset, this`txLen, this`txMsg, can
      ensures Valid()
      ensures can.Model() == old(can.Model()).Offer(ConsecutiveFrame(txId, old(txMsg).seqId, old(Pending())))
      ensures blockBoundary == (old(can.Model()).Accepts() && BlockBoundary(old(txMsg).seqId, old(txMsg).blockSize))
      ensures old(can.Model()).Accepts() ==> txMsg == AfterCf(old(txMsg)) && Pending() == old(Pending())[7..]
      ensures !old(can.Model()).Accepts() ==> txMsg == old(txMsg) && Pending() == old(Pending())
      ensures txLen <= old(txLen) && (old(can.Model()).Accepts() ==> txLen < old(txLen))
    {
      var ok := SendCf();
      blockBoundary := false;
      if ok {
        if txMsg.blockSize > 0 && txMsg.seqId % txMsg.blockSize == 0 {
          blockBoundary := true;
          txMsg := txMsg.(state := WaitFC);
        }
        Skip(7);
        txMsg := txMsg.(seqId := (txMsg.seqId + 1) % 16);
      }
    }

    method SendConsecutive()
      requires Valid() && txMsg.state == SendCF
      modifies this`txOffset, this`txLen, this`txMsg, can
      ensures Valid()
      ensures (Sender(txMsg, Pending()), can.Model())
           == CfBurst(Sender(old(txMsg), old(Pending())), old(can.Model()), txId)
    {
      ghost var goal := CfBurst(Sender(txMsg, Pending()), can.Model(), txId);
      var blockBoundary := false;
      while txLen > 7 && !blockBoundary
        invariant Valid()
        invariant !blockBoundary ==> CfBurst(Sender(txMsg, Pending()), can.Model(), txId) == goal
        invariant blockBoundary ==> (Sender(txMsg, Pending()), can.Model()) == goal
        decreases txLen, |can.answers|
      {
        blockBoundary := SendBlockCf();
      }
      if !blockBoundary {
        var _ := SendCf();
        txMsg := txMsg.(state := Idle);
      }
    }

    method RcvFc(data: seq<byte>)
      requires |data| >= 1
      modifies this`txMsg
      ensures txMsg == ReceiveFlowControl(old(txMsg), data)
      ensures old(txMsg).state !in {WaitFC, WaitFirstFC} ==> txMsg == old(txMsg)
      ensures old(txMsg).state == WaitFirstFC ==>
                var time := if |data| > 2 then data[2] else 0;
                && txMsg.blockSize == (if |data| > 1 then data[1] else 0)
                && txMsg.minSepTime == if time <= 127 || 241 <= time <= 249 then time else 127
      ensures old(txMsg).state in {WaitFC, WaitFirstFC} ==>
                txMsg.state == if data[0] % 16 == 0 then SendCF
                               else if data[0] % 16 == 1 && old(txMsg).waitFrames < 9 then old(txMsg).state
                               else Idle
    {
      if txMsg.state != WaitFC && txMsg.state != WaitFirstFC {
        return;
      }
      // Communication parameters come from the first flow control only.
      if txMsg.state == WaitFirstFC {
        txMsg := txMsg.(blockSize := Padded(data, 1), minSepTime := Padded(data, 2));
        if txMsg.minSepTime > 0x7F && (txMsg.minSepTime < 0xF1 || txMsg.minSepTime > 0xF9) {
          txMsg := txMsg.(minSepTime := 0x7F);
        }
      }
      if data[0] % 16 == FC_CTS {
        txMsg := txMsg.(state := SendCF);
      } else if data[0] % 16 == FC_WT {
        txMsg := txMsg.(waitFrames := txMsg.waitFrames + 1);
        if txMsg.waitFrames >= MAX_FCWAIT_FRAME {
          txMsg := txMsg.(waitFrames := 0, state := Idle);
        }
      } else {
        txMsg := txMsg.(state := Idle);
      }
    }

    method CopyToRx(at: nat, data: seq<byte>, from: nat, n: nat)
      requires at + n <= rxBuffer.Length
      modifies rxBuffer
      ensures rxBuffer[..] == Store(old(rxBuffer[..]), at, PaddedSlice(data, from, n))
    {
      forall i | 0 <= i < n {
        rxBuffer[at + i] := Padded(data, from + i);
      }
      assert forall i :: 0 <= i < rxBuffer.Length ==>
        rxBuffer[..][i] == Store(old(rxBuffer[..]), at, PaddedSlice(data, from, n))[i];
    }

    method RcvSf(data: seq<byte>)
      requires Valid() && Receivable(data) && FrameType(data) == PCI_SF
      modifies this`rxMsg, rxBuffer
      ensures Valid()
      ensures Receiver(rxMsg, rxBuffer[..]) == ReceiveSingle(old(Receiver(rxMsg, rxBuffer[..])), data)
    {
      rxMsg := rxMsg.(len := data[0] % 16);
      CopyToRx(0, data, 1, rxMsg.len);
      rxMsg := rxMsg.(state := Finished);
    }

    method RcvFf(data: seq<byte>)
      requires Valid() && Receivable(data) && FrameType(data) == PCI_FF
      modifies this`rxMsg, this`txMsg, rxBuffer, can
      ensures Valid()
      ensures Receiver(rxMsg, rxBuffer[..]) == ReceiveFirst(old(Receiver(rxMsg, rxBuffer[..])), data)
      ensures txMsg == old(txMsg).(blockSize := 0, minSepTime := 0)
      ensures can.Model() == old(can.Model()).Offer(FlowControl(txId))
    {
      var len := data[0] % 16 * 256;
      len := len + Padded(data, 1);
      CopyToRx(0, data, 2, 6);
      rxMsg := rxMsg.(seqId := 1, len := len, rest := len - 6, state := WaitData);
      var _ := SendFc();
    }

    method RcvCf(data: seq<byte>, now: int)
      requires Valid() && |data| >= 1
      modifies this`rxMsg, rxBuffer
      ensures Valid()
      ensures Receiver(rxMsg, rxBuffer[..]) == ReceiveConsecutive(old(Receiver(rxMsg, rxBuffer[..])), data, now)
    {
      hide Store, PaddedSlice, Elapsed;
      if Elapsed(now, rxMsg.waitCf) && rxMsg.seqId > 1 {
        rxMsg := rxMsg.(state := Idle);
        return;
      }
      rxMsg := rxMsg.(waitCf := now);
      if rxMsg.state != WaitData {
        return;
      }
      if data[0] % 16 != rxMsg.seqId % 16 {
        rxMsg := rxMsg.(state := Idle, seqId := 1);
        return;
      }
      var at := 6 + 7 * (rxMsg.seqId - 1);
      if rxMsg.rest <= 7 {
        CopyToRx(at, data, 1, rxMsg.rest);
        rxMsg := rxMsg.(state := Finished);
      } else {
        CopyToRx(at, data, 1, 7);
        rxMsg := rxMsg.(rest := rxMsg.rest - 7);
      }
      rxMsg := rxMsg.(seqId := rxMsg.seqId + 1);
    }

    /** `finished` says whether the ReceiveFinished hook is called. */
    method Receive(now: int, canId: nat, data: seq<byte>) returns (handled: bool, finished: bool)
      requires Valid() && Receivable(data)
      modifies this`rxMsg, this`txMsg, rxBuffer, can
      ensures Valid()
      ensures Model() == ReceiveEndpoint(old(Model()), now, canId, data)
      ensures handled == (canId == rxId)
      ensures finished == (handled && rxMsg.state == Finished && txMsg.state == Idle)
    {
      if canId != rxId {
        return false, false;
      }
      var pciType := data[0] / 16;
      if pciType == PCI_FC {
        RcvFc(data);
      } else if pciType == PCI_SF {
        RcvSf(data);
      } else if pciType == PCI_FF {
        RcvFf(data);
      } else if pciType == PCI_CF {
        RcvCf(data, now);
      }
      return true, rxMsg.state == Finished && txMsg.state == Idle;
    }
  }
}
