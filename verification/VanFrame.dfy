/** Frames of the VAN transmitter at slice level: enhanced-Manchester expansion
    with its end-of-data violation, the frame builders, and the receive checks
    that decide whether a frame on the bus is acknowledged. */
module VanFrame {
  import opened VanBurst
  import opened VanCrc
  import opened Wrappers

  // The command buffer holds a metadata word and 33 prepared words.
  const COMMAND_WORDS := 34
  const COMMAND_PENDING: bv16 := 0x8000
  const COMMAND_LENGTH_MASK: bv16 := 0x7FFF
  const EOF_WORD: bv16 := 0xFFC0
  const ACK_DISABLED: bv16 := 0xFFFF
  const MAX_DATA := 27

  const COM_NORMAL: bv8 := 0x08
  const COM_REQUIRE_ACK: bv8 := 0x0C
  const COM_REPLY_REQUEST: bv8 := 0x0F

  // ---- Expansion ----

  /** Eight bits to ten: each nibble is followed by its last bit inverted. */
  function StuffedVal(b: bv8): bv16 {
    var w := b as bv16;
    ((w & 0xF0) << 2) | ((!w & 0x10) << 1) | ((w & 0x0F) << 1) | (!w & 0x01)
  }

  /** Word i prepared for the transmitter, its ten slices in the upper bits. */
  function FrameWord(frame: seq<bv8>, i: nat): bv16
    requires i <= |frame|
  {
    if i == |frame| then EOF_WORD else if i == |frame| - 1 then LastWord(frame[i]) else PlainWord(frame[i])
  }

  function PlainWord(b: bv8): bv16 {
    StuffedVal(b) << 6
  }

  /** The last byte ends in a pair of equal slices, which no expanded nibble does. */
  function LastWord(b: bv8): bv16 {
    (StuffedVal(b) & (StuffedVal(b) - 1)) << 6
  }

  function SliceMask(i: nat): (m: bv16)
    requires i < 10
  {
    [0x8000, 0x4000, 0x2000, 0x1000, 0x0800, 0x0400, 0x0200, 0x0100, 0x0080, 0x0040][i]
  }

  function FrameSlices(frame: seq<bv8>): (r: seq<bool>)
    ensures |r| == 10 * (|frame| + 1)
  {
    seq(10 * (|frame| + 1), j requires 0 <= j < 10 * (|frame| + 1) =>
      HasWordBit(FrameWord(frame, j / 10), SliceMask(j % 10)))
  }

  function Metadata(length: nat): bv16
    requires length <= 33
  {
    COMMAND_PENDING | (length as bv16)
  }

  function CommandLength(command: seq<bv16>): nat
    requires |command| >= 1
  {
    (command[0] & COMMAND_LENGTH_MASK) as nat
  }

  /** The slices that go out for a prepared command. */
  function Sent(command: seq<bv16>): seq<bool>
    requires |command| >= 1 && CommandLength(command) < |command|
  {
    var n := CommandLength(command);
    seq(10 * n, j requires 0 <= j < 10 * n => HasWordBit(command[1 + j / 10], SliceMask(j % 10)))
  }

  // ---- The receiver's view ----

  /** The first group, counted from slice `from`, whose last two slices are equal. */
  function EodGroup(slices: seq<bool>, from: nat, k: nat): Option<nat>
    decreases |slices| - from - 5 * k
  {
    if from + 5 * k + 5 > |slices| then None
    else if slices[from + 5 * k + 3] == slices[from + 5 * k + 4] then Some(k)
    else EodGroup(slices, from, k + 1)
  }

  /** The payload bits of the first n groups. */
  function GroupBits(slices: seq<bool>, n: nat): (r: seq<bool>)
    requires 5 * n <= |slices|
    ensures |r| == 4 * n
  {
    seq(4 * n, i requires 0 <= i < 4 * n => slices[i / 4 * 5 + i % 4])
  }

  /** All payload bits up to and including the group that violates the code. */
  function Decode(slices: seq<bool>): Option<seq<bool>> {
    match EodGroup(slices, 0, 0)
    case None => None
    case Some(k) => if 5 * (k + 1) <= |slices| then Some(GroupBits(slices, k + 1)) else None
  }

  /** Accumulated as the receiver does: doubled, then the sample added. */
  function Sample(bits: seq<bool>): bv16 {
    if bits == [] then 0 else Accumulate(Sample(bits[..|bits| - 1]), bits[|bits| - 1])
  }

  function Accumulate(w: bv16, bit: bool): bv16 {
    w + w + if bit then 1 else 0
  }

  /** The 15 expanded slices of an identifier as one word. */
  function IdentifierWord(high: bv8, low: bv8): bv16 {
    ((StuffedVal(high) & 0x03FF) << 5) | ((StuffedVal(low) >> 5) & 0x001F)
  }

  function AckWord(identifier: bv16): bv16 {
    IdentifierWord(IdHigh(identifier), (identifier & 0x0F) as bv8 << 4)
  }

  /** The end of data counts only at an even group from 4 to 60 after COM, and with a dominant last payload slice. */
  predicate EodLegal(slices: seq<bool>) {
    match EodGroup(slices, 30, 0)
    case None => false
    case Some(k) =>
      && 30 + 5 * k + 5 <= |slices| && !slices[30 + 5 * k + 3]
      && 4 <= k + 1 < 61 && (k + 1) % 2 == 0
  }

  /** Whether the receiver drives the acknowledge slot of a frame: the
      identifier slices, the COM slices 11001, then a legal end of data. */
  predicate Acknowledges(configured: bv16, slices: seq<bool>) {
    && |slices| >= 30
    && Sample(slices[10..25]) == configured
    && slices[25..30] == [true, true, false, false, true]
    && EodLegal(slices)
  }

  // ---- Frames ----

  function IdHigh(identifier: bv16): bv8 {
    (((identifier << 4) & 0xFF00) >> 8) as bv8
  }

  function IdLowAndCom(identifier: bv16, com: bv8): bv8 {
    ((identifier & 0x0F) as bv8 << 4) | com
  }

  /** What the check sequence protects: identifier, COM and data. */
  function Body(identifier: bv16, com: bv8, data: seq<bv8>): seq<bv8> {
    [IdHigh(identifier), IdLowAndCom(identifier, com)] + data
  }

  function Frame(identifier: bv16, com: bv8, data: seq<bv8>): (r: seq<bv8>)
    ensures |r| == |data| + 5
  {
    var fcs := Fcs(Body(identifier, com, data));
    [SOF] + Body(identifier, com, data) + [HighByte(fcs), LowByte(fcs)]
  }

  function HighByte(w: bv16): bv8 { ((w >> 8) & 0xFF) as bv8 }

  function LowByte(w: bv16): bv8 { (w & 0xFF) as bv8 }

  function NormalCom(requireAck: bool): bv8 {
    if requireAck then COM_REQUIRE_ACK else COM_NORMAL
  }

  // ---- What a frame carries, told by its slices ----

  /** Payload bit i: four slices of each group of five. */
  function CarriedBit(slices: seq<bool>, i: nat): bool
    requires i / 4 * 5 + i % 4 < |slices|
  {
    slices[i / 4 * 5 + i % 4]
  }

  function BitOfByte(b: bv8, j: nat): bool
    requires j < 8
  {
    if j == 0 then b & 0x80 != 0 else if j == 1 then b & 0x40 != 0
    else if j == 2 then b & 0x20 != 0 else if j == 3 then b & 0x10 != 0
    else if j == 4 then b & 0x08 != 0 else if j == 5 then b & 0x04 != 0
    else if j == 6 then b & 0x02 != 0 else b & 0x01 != 0
  }

  function BitOfIdentifier(identifier: bv16, j: nat): bool
    requires j < 12
  {
    if j == 0 then identifier & 0x800 != 0 else if j == 1 then identifier & 0x400 != 0
    else if j == 2 then identifier & 0x200 != 0 else if j == 3 then identifier & 0x100 != 0
    else if j == 4 then identifier & 0x080 != 0 else if j == 5 then identifier & 0x040 != 0
    else if j == 6 then identifier & 0x020 != 0 else if j == 7 then identifier & 0x010 != 0
    else if j == 8 then identifier & 0x008 != 0 else if j == 9 then identifier & 0x004 != 0
    else if j == 10 then identifier & 0x002 != 0 else identifier & 0x001 != 0
  }

  /** The first 24 bits: start byte 0x0E, 12 identifier bits, four COM bits, each
      field starting with its highest bit. */
  function HeaderBit(identifier: bv16, com: seq<bool>, i: nat): bool
    requires |com| == 4 && i < 24
  {
    if i < 8 then [false, false, false, false, true, true, true, false][i]
    else if i < 20 then BitOfIdentifier(identifier, i - 8)
    else com[i - 20]
  }

  /** Header, data in order, two bytes of check sequence, and ten recessive slices behind them. */
  predicate Carries(slices: seq<bool>, identifier: bv16, com: seq<bool>, data: seq<bv8>)
    requires |com| == 4
  {
    && |slices| == 10 * (|data| + 6)
    && (forall i | 0 <= i < 24 :: CarriedBit(slices, i) == HeaderBit(identifier, com, i))
    && (forall i | 24 <= i < 24 + 8 * |data| :: CarriedBit(slices, i) == BitOfByte(data[(i - 24) / 8], (i - 24) % 8))
    && (forall j | 10 * (|data| + 5) <= j < 10 * (|data| + 6) :: slices[j])
  }

  // ---- The transmitter ----

  class UlpVanTx {
    const command: array<bv16>
    var configuredIdentifier: bv16

    ghost predicate Valid() {
      command.Length == COMMAND_WORDS
    }

    constructor ()
      ensures Valid() && fresh(command) && configuredIdentifier == 0xFFFF
    {
      command := new bv16[COMMAND_WORDS](_ => 0);
      configuredIdentifier := ACK_DISABLED;
    }

    method SetAckIdentifier(identifier: bv16, enabled: bool) returns (ok: bool)
      modifies this
      ensures ok == (identifier <= 0x0FFF)
      ensures configuredIdentifier ==
                if !ok then old(configuredIdentifier) else if enabled then AckWord(identifier) else 0xFFFF
    {
      if identifier > 0x0FFF {
        return false;
      }
      var expanded: bv16 := 0;
      if enabled {
        var high := ((identifier >> 4) & 0xFF) as bv8;
        var low := (identifier & 0x0F) as bv8 << 4;
        expanded := ((StuffedVal(high) & 0x03FF) << 5) | ((StuffedVal(low) >> 5) & 0x001F);
        SameHigh(identifier);
      }
      configuredIdentifier := if enabled then expanded else ACK_DISABLED;
      return true;
    }

    method InternalSendFrame(frame: array<bv8>)
      requires Valid() && frame.Length < COMMAND_WORDS - 1
      modifies command
      ensures command[0] == Metadata(frame.Length + 1) && CommandLength(command[..]) == frame.Length + 1
      ensures Sent(command[..]) == FrameSlices(frame[..])
      ensures command[frame.Length + 2..] == old(command[frame.Length + 2..])
    {
      hide PlainWord, LastWord, Metadata, CommandLength, HasWordBit;
      var length := frame.Length;
      var i := 0;
      while i < length
        invariant 0 <= i <= length
        invariant forall k | 0 <= k < i :: command[1 + k] == FrameWord(frame[..], k)
        invariant command[length + 2..] == old(command[length + 2..])
      {
        if i == length - 1 {
          command[1 + i] := LastWord(frame[i]);
        } else {
          command[1 + i] := PlainWord(frame[i]);
        }
        i := i + 1;
      }
      command[1 + i] := EOF_WORD;
      command[0] := Metadata(length + 1);
      LengthField(command[..], length + 1);
      SentIsFrame(command[..], frame[..]);
    }

    /** Both kinds of frame are built alike; they differ in COM and data. */
    method BuildFrame(identifier: bv16, com: bv8, data: seq<bv8>) returns (vanFrame: array<bv8>)
      ensures fresh(vanFrame) && vanFrame[..] == Frame(identifier, com, data)
    {
      hide Fcs, IdHigh, IdLowAndCom;
      var n := |data|;
      vanFrame := new bv8[n + 5](_ => 0);
      vanFrame[0] := SOF;
      vanFrame[1] := IdHigh(identifier);
      vanFrame[2] := IdLowAndCom(identifier, com);
      forall i | 0 <= i < n {
        vanFrame[3 + i] := data[i];
      }
      ghost var body := vanFrame[1..n + 3];
      assert body == Body(identifier, com, data);
      var crc := Crc15(vanFrame[1..n + 3]);
      vanFrame[n + 3] := HighByte(crc);
      vanFrame[n + 4] := LowByte(crc);
      hide HighByte, LowByte;
      assert vanFrame[1..n + 3] == body;
      assert vanFrame[..] == [vanFrame[0]] + body + [vanFrame[n + 3], vanFrame[n + 4]];
    }

    method SendNormalFrame(identifier: bv16, data: seq<bv8>, requireAck: bool)
      requires Valid() && |data| <= 27
      modifies command
      ensures command[0] == 0x8000 | (|data| + 6) as bv16 && CommandLength(command[..]) == |data| + 6
      ensures Sent(command[..]) == FrameSlices(Frame(identifier, NormalCom(requireAck), data))
      ensures Carries(Sent(command[..]), identifier, [true, requireAck, false, false], data)
    {
      FrameCarries(identifier, NormalCom(requireAck), data);
      NormalComBits(requireAck);
      hide Carries, NormalCom, BitOfByte;
      var vanFrame := BuildFrame(identifier, NormalCom(requireAck), data);
      hide Frame, Sent, FrameSlices;
      InternalSendFrame(vanFrame);
    }

    method SendReplyRequestFrame(identifier: bv16)
      requires Valid()
      modifies command
      ensures command[0] == 0x8006 && CommandLength(command[..]) == 6
      ensures Sent(command[..]) == FrameSlices(Frame(identifier, COM_REPLY_REQUEST, []))
      ensures Carries(Sent(command[..]), identifier, [true, true, true, true], [])
    {
      FrameCarries(identifier, COM_REPLY_REQUEST, []);
      ReplyComBits();
      hide Carries, BitOfByte;
      var vanFrame := BuildFrame(identifier, COM_REPLY_REQUEST, []);
      hide Frame, Sent, FrameSlices;
      InternalSendFrame(vanFrame);
    }
  }

  lemma SameHigh(identifier: bv16)
    requires identifier <= 0x0FFF
    ensures ((identifier >> 4) & 0xFF) as bv8 == IdHigh(identifier)
  {
  }

  lemma LengthField(command: seq<bv16>, n: nat)
    requires |command| >= 1 && n <= 33 && command[0] == Metadata(n)
    ensures CommandLength(command) == n && command[0] & COMMAND_PENDING != 0
  {
  }

  lemma SentIsFrame(command: seq<bv16>, frame: seq<bv8>)
    requires |command| > |frame| + 1 && CommandLength(command) == |frame| + 1
    requires forall k | 0 <= k <= |frame| :: command[1 + k] == FrameWord(frame, k)
    ensures Sent(command) == FrameSlices(frame)
  {
    hide FrameWord, HasWordBit, SliceMask;
  }

  // ---- What a prepared word looks like ----

  function Expanded(b: bv8, i: nat): bool
    requires i < 10
  {
    if i % 5 == 4 then !HasBit(b, Mask(i / 5 * 4 + 3)) else HasBit(b, Mask(i / 5 * 4 + i % 5))
  }

  lemma PlainUpper(b: bv8)
    ensures HasWordBit(PlainWord(b), 0x8000) == HasBit(b, 0x80)
    ensures HasWordBit(PlainWord(b), 0x4000) == HasBit(b, 0x40)
    ensures HasWordBit(PlainWord(b), 0x2000) == HasBit(b, 0x20)
    ensures HasWordBit(PlainWord(b), 0x1000) == HasBit(b, 0x10)
    ensures HasWordBit(PlainWord(b), 0x0800) == !HasBit(b, 0x10)
  {
  }

  lemma PlainLower(b: bv8)
    ensures HasWordBit(PlainWord(b), 0x0400) == HasBit(b, 0x08)
    ensures HasWordBit(PlainWord(b), 0x0200) == HasBit(b, 0x04)
    ensures HasWordBit(PlainWord(b), 0x0100) == HasBit(b, 0x02)
    ensures HasWordBit(PlainWord(b), 0x0080) == HasBit(b, 0x01)
    ensures HasWordBit(PlainWord(b), 0x0040) == !HasBit(b, 0x01)
  {
  }

  lemma LastUpper(b: bv8)
    ensures HasWordBit(LastWord(b), 0x8000) == HasBit(b, 0x80)
    ensures HasWordBit(LastWord(b), 0x4000) == HasBit(b, 0x40)
    ensures HasWordBit(LastWord(b), 0x2000) == HasBit(b, 0x20)
    ensures HasWordBit(LastWord(b), 0x1000) == HasBit(b, 0x10)
    ensures HasWordBit(LastWord(b), 0x0800) == !HasBit(b, 0x10)
  {
  }

  lemma LastLower(b: bv8)
    ensures HasWordBit(LastWord(b), 0x0400) == HasBit(b, 0x08)
    ensures HasWordBit(LastWord(b), 0x0200) == HasBit(b, 0x04)
    ensures HasWordBit(LastWord(b), 0x0100) == HasBit(b, 0x02)
    ensures !HasWordBit(LastWord(b), 0x0080) && !HasWordBit(LastWord(b), 0x0040)
  {
  }

  lemma PlainSlice(b: bv8, i: nat)
    requires i < 10
    ensures HasWordBit(PlainWord(b), SliceMask(i)) == Expanded(b, i)
  {
    hide HasWordBit, HasBit, PlainWord;
    PlainUpper(b);
    PlainLower(b);
  }

  lemma LastSlice(b: bv8, i: nat)
    requires i < 10
    ensures HasWordBit(LastWord(b), SliceMask(i)) == (i < 8 && Expanded(b, i))
  {
    hide HasWordBit, HasBit, LastWord;
    LastUpper(b);
    LastLower(b);
  }

  /** Everything up to the closing pair of dominant slices is the expansion, byte by byte. */
  lemma SliceOf(frame: seq<bv8>, j: nat)
    requires j < 10 * |frame|
    ensures FrameSlices(frame)[j] == (j < 10 * |frame| - 2 && Expanded(frame[j / 10], j % 10))
  {
    hide HasWordBit, SliceMask, PlainWord, LastWord, Expanded;
    PlainSlice(frame[j / 10], j % 10);
    LastSlice(frame[j / 10], j % 10);
  }

  // ---- Unique decoding ----

  /** The slices start with a frame; whatever follows does not matter. */
  predicate StartsWith(slices: seq<bool>, frame: seq<bv8>) {
    |slices| >= 10 * |frame| && slices[..10 * |frame|] == FrameSlices(frame)[..10 * |frame|]
  }

  lemma OnlyLastGroupViolates(slices: seq<bool>, frame: seq<bv8>, k: nat)
    requires StartsWith(slices, frame) && k < 2 * |frame|
    ensures slices[5 * k + 3] == slices[5 * k + 4] <==> k == 2 * |frame| - 1
    ensures k == 2 * |frame| - 1 ==> !slices[5 * k + 3]
  {
    hide HasBit, Mask, FrameSlices;
    SliceOf(frame, 5 * k + 3);
    SliceOf(frame, 5 * k + 4);
    assert slices[..10 * |frame|][5 * k + 3] == slices[5 * k + 3];
    assert slices[..10 * |frame|][5 * k + 4] == slices[5 * k + 4];
  }

  /** Counted from any group boundary, the first violation is the last group of the frame. */
  lemma {:induction false} EodIsLastGroup(slices: seq<bool>, frame: seq<bv8>, m: nat, k: nat)
    requires StartsWith(slices, frame) && m + k < 2 * |frame|
    ensures EodGroup(slices, 5 * m, k) == Some(2 * |frame| - 1 - m)
    decreases 2 * |frame| - k
  {
    hide FrameSlices;
    OnlyLastGroupViolates(slices, frame, m + k);
    assert 5 * m + 5 * k == 5 * (m + k);
    if m + k < 2 * |frame| - 1 {
      EodIsLastGroup(slices, frame, m, k + 1);
    }
  }

  lemma {:induction false} BitAt(data: seq<bv8>, i: nat)
    requires i < 8 * |data|
    ensures Bits(data)[i] == HasBit(data[i / 8], Mask(i % 8))
  {
    hide HasBit, Mask;
    if i < 8 * (|data| - 1) {
      BitAt(data[..|data| - 1], i);
    }
  }

  /** The closing violation costs the low bit of the last byte. */
  function LowBitCleared(frame: seq<bv8>): (r: seq<bv8>)
    ensures |r| == |frame|
  {
    if frame == [] then [] else frame[..|frame| - 1] + [frame[|frame| - 1] & 0xFE]
  }

  lemma ClearedBit(b: bv8, i: nat)
    requires i < 8
    ensures HasBit(b & 0xFE, Mask(i)) == (i < 7 && HasBit(b, Mask(i)))
  {
  }

  lemma PayloadSlice(frame: seq<bv8>, i: nat)
    requires i < 8 * |frame|
    ensures FrameSlices(frame)[i / 4 * 5 + i % 4] == (i < 8 * |frame| - 1 && HasBit(frame[i / 8], Mask(i % 8)))
  {
    hide HasBit, Mask, FrameSlices;
    var j, h, r := i / 4 * 5 + i % 4, i / 4 % 2, i % 4;
    assert j / 10 == i / 8 && j % 10 == 5 * h + r && i % 8 == 4 * h + r;
    SliceOf(frame, j);
    assert (5 * h + r) % 5 == r && (5 * h + r) / 5 == h;
  }

  // ---- Built frames, bit by bit ----

  /** The low four bits, highest first. */
  function LowBits(com: bv8): (r: seq<bool>)
    ensures |r| == 4
  {
    [BitOfByte(com, 4), BitOfByte(com, 5), BitOfByte(com, 6), BitOfByte(com, 7)]
  }

  lemma NormalComBits(requireAck: bool)
    ensures LowBits(NormalCom(requireAck)) == [true, requireAck, false, false] && NormalCom(requireAck) <= 0x0F
  {
  }

  lemma ReplyComBits()
    ensures LowBits(COM_REPLY_REQUEST) == [true, true, true, true] && COM_REPLY_REQUEST <= 0x0F
  {
  }

  lemma HasBitOfByte(b: bv8, j: nat)
    requires j < 8
    ensures HasBit(b, Mask(j)) == BitOfByte(b, j)
  {
  }

  lemma HighBits(identifier: bv16)
    ensures IdHigh(identifier) & 0x80 != 0 <==> identifier & 0x800 != 0
    ensures IdHigh(identifier) & 0x40 != 0 <==> identifier & 0x400 != 0
    ensures IdHigh(identifier) & 0x20 != 0 <==> identifier & 0x200 != 0
    ensures IdHigh(identifier) & 0x10 != 0 <==> identifier & 0x100 != 0
    ensures IdHigh(identifier) & 0x08 != 0 <==> identifier & 0x080 != 0
    ensures IdHigh(identifier) & 0x04 != 0 <==> identifier & 0x040 != 0
    ensures IdHigh(identifier) & 0x02 != 0 <==> identifier & 0x020 != 0
    ensures IdHigh(identifier) & 0x01 != 0 <==> identifier & 0x010 != 0
  {
  }

  lemma HighIdentifierBit(identifier: bv16, j: nat)
    requires j < 8
    ensures BitOfByte(IdHigh(identifier), j) == BitOfIdentifier(identifier, j)
  {
    hide IdHigh;
    HighBits(identifier);
  }

  lemma LowIdentifierBit(identifier: bv16, com: bv8, j: nat)
    requires com <= 0x0F && j < 4
    ensures BitOfByte(IdLowAndCom(identifier, com), j) == BitOfIdentifier(identifier, 8 + j)
    ensures BitOfByte(IdLowAndCom(identifier, com), 4 + j) == LowBits(com)[j]
  {
  }

  lemma StartBit(j: nat)
    requires j < 8
    ensures BitOfByte(SOF, j) == [false, false, false, false, true, true, true, false][j]
  {
  }

  /** Bit j of byte i of a frame is carried as bit 8 * i + j, but for the very last one. */
  lemma ByteCarried(frame: seq<bv8>, i: nat, j: nat)
    requires i < |frame| && j < 8 && (i < |frame| - 1 || j < 7)
    ensures CarriedBit(FrameSlices(frame), 8 * i + j) == BitOfByte(frame[i], j)
  {
    hide HasBit, Mask, FrameSlices, BitOfByte;
    PayloadSlice(frame, 8 * i + j);
    HasBitOfByte(frame[i], j);
  }

  lemma EndRecessive(frame: seq<bv8>, j: nat)
    requires 10 * |frame| <= j < 10 * (|frame| + 1)
    ensures FrameSlices(frame)[j]
  {
    assert FrameWord(frame, j / 10) == 0xFFC0;
    AllSlicesSet(j % 10);
    hide HasWordBit, SliceMask;
  }

  lemma AllSlicesSet(i: nat)
    requires i < 10
    ensures HasWordBit(0xFFC0, SliceMask(i))
  {
  }

  lemma FrameBytes(identifier: bv16, com: bv8, data: seq<bv8>)
    ensures var frame := Frame(identifier, com, data);
            && frame[0] == SOF && frame[1] == IdHigh(identifier) && frame[2] == IdLowAndCom(identifier, com)
            && frame[3..3 + |data|] == data
  {
    hide Fcs, IdHigh, IdLowAndCom, HighByte, LowByte;
  }

  lemma HeaderBitOfBytes(identifier: bv16, com: bv8, i: nat)
    requires com <= 0x0F && i < 24
    ensures HeaderBit(identifier, LowBits(com), i)
         == BitOfByte(if i < 8 then SOF else if i < 16 then IdHigh(identifier) else IdLowAndCom(identifier, com), i % 8)
  {
    hide BitOfByte, BitOfIdentifier, IdHigh, IdLowAndCom, LowBits;
    if i < 8 {
      StartBit(i);
    } else if i < 16 {
      HighIdentifierBit(identifier, i - 8);
    } else {
      LowIdentifierBit(identifier, com, if i < 20 then i - 16 else i - 20);
    }
  }

  lemma HeaderCarried(identifier: bv16, com: bv8, data: seq<bv8>, i: nat)
    requires com <= 0x0F && i < 24
    ensures CarriedBit(FrameSlices(Frame(identifier, com, data)), i) == HeaderBit(identifier, LowBits(com), i)
  {
    hide FrameSlices, Frame, CarriedBit, BitOfByte, HeaderBit, IdHigh, IdLowAndCom, LowBits;
    FrameBytes(identifier, com, data);
    HeaderBitOfBytes(identifier, com, i);
    ByteCarried(Frame(identifier, com, data), i / 8, i % 8);
  }

  lemma DataCarried(identifier: bv16, com: bv8, data: seq<bv8>, i: nat)
    requires 24 <= i < 24 + 8 * |data|
    ensures CarriedBit(FrameSlices(Frame(identifier, com, data)), i) == BitOfByte(data[(i - 24) / 8], (i - 24) % 8)
  {
    hide FrameSlices, Frame, CarriedBit, BitOfByte, IdHigh, IdLowAndCom;
    var frame, k := Frame(identifier, com, data), (i - 24) / 8;
    FrameBytes(identifier, com, data);
    assert frame[3..3 + |data|][k] == frame[3 + k];
    ByteCarried(frame, 3 + k, (i - 24) % 8);
  }

  /** What the slices of a frame carry, whatever bytes it is built from. */
  lemma FrameCarries(identifier: bv16, com: bv8, data: seq<bv8>)
    requires com <= 0x0F
    ensures Carries(FrameSlices(Frame(identifier, com, data)), identifier, LowBits(com), data)
  {
    var frame := Frame(identifier, com, data);
    hide FrameSlices, Frame, CarriedBit, BitOfByte, HeaderBit, LowBits;
    forall i | 0 <= i < 24 ensures CarriedBit(FrameSlices(frame), i) == HeaderBit(identifier, LowBits(com), i) {
      HeaderCarried(identifier, com, data, i);
    }
    forall i | 24 <= i < 24 + 8 * |data|
      ensures CarriedBit(FrameSlices(frame), i) == BitOfByte(data[(i - 24) / 8], (i - 24) % 8)
    {
      DataCarried(identifier, com, data, i);
    }
    forall j | 10 * (|data| + 5) <= j < 10 * (|data| + 6) ensures FrameSlices(frame)[j] {
      EndRecessive(frame, j);
    }
  }

  lemma PayloadBit(slices: seq<bool>, frame: seq<bv8>, i: nat)
    requires StartsWith(slices, frame) && i < 8 * |frame|
    ensures slices[i / 4 * 5 + i % 4] == Bits(LowBitCleared(frame))[i]
  {
    hide HasBit, Mask, FrameSlices, Bits;
    var j := i / 4 * 5 + i % 4;
    assert slices[..10 * |frame|][j] == slices[j];
    PayloadSlice(frame, i);
    BitAt(LowBitCleared(frame), i);
    ClearedBit(frame[|frame| - 1], i % 8);
  }

  /** Decoding gives back the bytes of any frame but for the low bit of the last
      one, whatever follows the frame on the bus. */
  lemma EmissionDecodes(slices: seq<bool>, frame: seq<bv8>)
    requires frame != [] && StartsWith(slices, frame)
    ensures Decode(slices) == Some(Bits(LowBitCleared(frame)))
  {
    EodIsLastGroup(slices, frame, 0, 0);
    var n := 2 * |frame|;
    assert 5 * n <= |slices|;
    hide StartsWith, Bits, LowBitCleared, EodGroup;
    forall i | 0 <= i < 8 * |frame| ensures slices[i / 4 * 5 + i % 4] == Bits(LowBitCleared(frame))[i] {
      PayloadBit(slices, frame, i);
    }
    assert GroupBits(slices, n) == Bits(LowBitCleared(frame));
  }

  lemma EvenByte(b: bv8)
    ensures b & 1 == 0 <==> b & 0xFE == b
  {
  }

  lemma EvenFrame(frame: seq<bv8>)
    requires frame != []
    ensures LowBitCleared(frame) == frame <==> frame[|frame| - 1] & 1 == 0
  {
    var last := frame[|frame| - 1];
    EvenByte(last);
    assert frame == frame[..|frame| - 1] + [last];
    assert LowBitCleared(frame)[|frame| - 1] == last & 0xFE;
  }

  /** The frame itself comes back exactly when the low bit of its last byte is clear. */
  lemma DecodesExactlyIffEven(slices: seq<bool>, frame: seq<bv8>)
    requires frame != [] && StartsWith(slices, frame)
    ensures Decode(slices) == Some(Bits(frame)) <==> frame[|frame| - 1] & 1 == 0
  {
    hide Decode, Bits, LowBitCleared, StartsWith;
    EmissionDecodes(slices, frame);
    EvenFrame(frame);
    if Bits(LowBitCleared(frame)) == Bits(frame) {
      BitsInjective(LowBitCleared(frame), frame);
    }
  }

  /** No two frames look alike, nor does one look like the beginning of another. */
  lemma UniquelyDecodable(slices: seq<bool>, x: seq<bv8>, y: seq<bv8>)
    requires x != [] && x[|x| - 1] & 1 == 0 && StartsWith(slices, x)
    requires y != [] && y[|y| - 1] & 1 == 0 && StartsWith(slices, y)
    ensures x == y
  {
    DecodesExactlyIffEven(slices, x);
    DecodesExactlyIffEven(slices, y);
    hide Decode, StartsWith, Bits;
    BitsInjective(x, y);
  }

  // ---- Built frames ----

  lemma FcsIsEven(data: seq<bv8>)
    ensures LowByte(Fcs(data)) & 1 == 0
  {
  }

  lemma BytesOfWord(w: bv16)
    ensures Word(HighByte(w), LowByte(w)) == w
  {
  }

  /** Every frame the transmitter builds passes the receiver's CRC check and
      survives the emission, with its end of data at group 2n + 4 after COM for
      n data bytes: an even group between 4 and 60. */
  lemma BuiltFrameArrives(slices: seq<bool>, identifier: bv16, com: bv8, data: seq<bv8>)
    requires StartsWith(slices, Frame(identifier, com, data))
    ensures CrcOk(Frame(identifier, com, data))
    ensures Decode(slices) == Some(Bits(Frame(identifier, com, data)))
    ensures EodGroup(slices, 30, 0) == Some(2 * |data| + 3)
  {
    var frame, body := Frame(identifier, com, data), Body(identifier, com, data);
    hide Fcs, Body, HighByte, LowByte, Word, StartsWith, Decode;
    FcsIsEven(body);
    BytesOfWord(Fcs(body));
    assert frame[1..|frame| - 2] == body;
    DecodesExactlyIffEven(slices, frame);
    EodIsLastGroup(slices, frame, 6, 0);
  }

  // ---- Acknowledging ----

  // An expanded byte as far as its first slices, alone and behind another one.
  function Upper(x: bv16, slices: nat): bv16
    requires slices <= 10
  {
    x >> (10 - slices)
  }

  function Joined(x: bv16, y: bv16, slices: nat): bv16
    requires slices <= 5
  {
    (x << slices) | (y >> (10 - slices))
  }

  function Aligned(x: bv16): bv16 { x << 6 }

  lemma UpperStart(x: bv16)
    requires x <= 0x3FF
    ensures Accumulate(Upper(x, 0), HasWordBit(Aligned(x), 0x8000)) == Upper(x, 1)
    ensures Accumulate(Upper(x, 1), HasWordBit(Aligned(x), 0x4000)) == Upper(x, 2)
    ensures Accumulate(Upper(x, 2), HasWordBit(Aligned(x), 0x2000)) == Upper(x, 3)
    ensures Accumulate(Upper(x, 3), HasWordBit(Aligned(x), 0x1000)) == Upper(x, 4)
    ensures Accumulate(Upper(x, 4), HasWordBit(Aligned(x), 0x0800)) == Upper(x, 5)
  {
  }

  lemma UpperEnd(x: bv16)
    requires x <= 0x3FF
    ensures Accumulate(Upper(x, 5), HasWordBit(Aligned(x), 0x0400)) == Upper(x, 6)
    ensures Accumulate(Upper(x, 6), HasWordBit(Aligned(x), 0x0200)) == Upper(x, 7)
    ensures Accumulate(Upper(x, 7), HasWordBit(Aligned(x), 0x0100)) == Upper(x, 8)
    ensures Accumulate(Upper(x, 8), HasWordBit(Aligned(x), 0x0080)) == Upper(x, 9)
    ensures Accumulate(Upper(x, 9), HasWordBit(Aligned(x), 0x0040)) == Upper(x, 10)
  {
  }

  lemma JoinedStart(x: bv16, y: bv16)
    requires x <= 0x3FF && y <= 0x3FF
    ensures Accumulate(Joined(x, y, 0), HasWordBit(Aligned(y), 0x8000)) == Joined(x, y, 1)
    ensures Accumulate(Joined(x, y, 1), HasWordBit(Aligned(y), 0x4000)) == Joined(x, y, 2)
  {
  }

  lemma JoinedMiddle(x: bv16, y: bv16)
    requires x <= 0x3FF && y <= 0x3FF
    ensures Accumulate(Joined(x, y, 2), HasWordBit(Aligned(y), 0x2000)) == Joined(x, y, 3)
    ensures Accumulate(Joined(x, y, 3), HasWordBit(Aligned(y), 0x1000)) == Joined(x, y, 4)
  {
  }

  lemma JoinedEnd(x: bv16, y: bv16)
    requires x <= 0x3FF && y <= 0x3FF
    ensures Accumulate(Joined(x, y, 4), HasWordBit(Aligned(y), 0x0800)) == Joined(x, y, 5)
  {
  }

  lemma AccumulateFirst(x: bv16, k: nat)
    requires x <= 0x3FF && k < 10
    ensures Accumulate(Upper(x, k), HasWordBit(Aligned(x), SliceMask(k))) == Upper(x, k + 1)
  {
    hide Accumulate, HasWordBit, Upper, Aligned;
    if k < 5 {
      UpperStart(x);
    } else {
      UpperEnd(x);
    }
  }

  lemma AccumulateSecond(x: bv16, y: bv16, k: nat)
    requires x <= 0x3FF && y <= 0x3FF && k < 5
    ensures Accumulate(Joined(x, y, k), HasWordBit(Aligned(y), SliceMask(k))) == Joined(x, y, k + 1)
  {
    hide Accumulate, HasWordBit, Joined, Aligned;
    if k < 2 {
      JoinedStart(x, y);
    } else if k < 4 {
      JoinedMiddle(x, y);
    } else {
      JoinedEnd(x, y);
    }
  }

  lemma StuffedRange(b: bv8)
    ensures StuffedVal(b) <= 0x3FF && PlainWord(b) == Aligned(StuffedVal(b))
  {
  }

  lemma Whole(x: bv16, y: bv16)
    requires x <= 0x3FF && y <= 0x3FF
    ensures Upper(x, 0) == 0 && Upper(x, 10) == Joined(x, y, 0)
    ensures Joined(x, y, 5) == ((x & 0x03FF) << 5) | ((y >> 5) & 0x001F)
  {
  }

  lemma {:induction false} SampleTen(bits: seq<bool>, b: bv8, k: nat)
    requires k <= 10 && |bits| >= 10 && forall i | 0 <= i < 10 :: bits[i] == Expanded(b, i)
    ensures Sample(bits[..k]) == Upper(StuffedVal(b), k)
  {
    hide Expanded, StuffedVal, PlainWord, Accumulate, Upper, Aligned, HasWordBit, SliceMask;
    StuffedRange(b);
    if k == 0 {
      Whole(StuffedVal(b), StuffedVal(b));
    } else {
      SampleTen(bits, b, k - 1);
      PlainSlice(b, k - 1);
      AccumulateFirst(StuffedVal(b), k - 1);
      assert bits[..k][..k - 1] == bits[..k - 1];
    }
  }

  predicate IdentifierSlices(bits: seq<bool>, high: bv8, low: bv8) {
    && |bits| == 15
    && forall i | 0 <= i < 15 :: bits[i] == if i < 10 then Expanded(high, i) else Expanded(low, i - 10)
  }

  lemma {:induction false} SampleFifteen(bits: seq<bool>, high: bv8, low: bv8, k: nat)
    requires k <= 5 && IdentifierSlices(bits, high, low)
    ensures Sample(bits[..10 + k]) == Joined(StuffedVal(high), StuffedVal(low), k)
  {
    hide Expanded, StuffedVal, PlainWord, Accumulate, Upper, Joined, Aligned, HasWordBit, SliceMask;
    StuffedRange(high);
    StuffedRange(low);
    if k == 0 {
      SampleTen(bits, high, 10);
      Whole(StuffedVal(high), StuffedVal(low));
    } else {
      SampleFifteen(bits, high, low, k - 1);
      PlainSlice(low, k - 1);
      AccumulateSecond(StuffedVal(high), StuffedVal(low), k - 1);
      assert bits[..10 + k][..9 + k] == bits[..9 + k];
      assert bits[9 + k] == Expanded(low, k - 1);
    }
  }

  lemma IdentifierSlice(slices: seq<bool>, frame: seq<bv8>, i: nat)
    requires |frame| >= 5 && StartsWith(slices, frame) && i < 15
    ensures slices[10..25][i] == if i < 10 then Expanded(frame[1], i) else Expanded(frame[2], i - 10)
  {
    hide Expanded, FrameSlices;
    assert slices[..10 * |frame|][10 + i] == slices[10..25][i];
    SliceOf(frame, 10 + i);
  }

  lemma JoinedIdentifier(high: bv8, low: bv8)
    ensures Joined(StuffedVal(high), StuffedVal(low), 5) == IdentifierWord(high, low)
  {
    StuffedRange(high);
    StuffedRange(low);
    hide StuffedVal;
    Whole(StuffedVal(high), StuffedVal(low));
  }

  /** The receiver's shift register ends with the expanded identifier. */
  lemma SampledIdentifier(slices: seq<bool>, frame: seq<bv8>)
    requires |frame| >= 5 && StartsWith(slices, frame)
    ensures Sample(slices[10..25]) == IdentifierWord(frame[1], frame[2])
  {
    assert |slices| >= 50;
    hide Expanded, StuffedVal, StartsWith, Joined, IdentifierWord, Sample;
    var bits := slices[10..25];
    forall i | 0 <= i < 15 ensures bits[i] == if i < 10 then Expanded(frame[1], i) else Expanded(frame[2], i - 10) {
      IdentifierSlice(slices, frame, i);
    }
    JoinedIdentifier(frame[1], frame[2]);
    SampleFifteen(bits, frame[1], frame[2], 5);
    assert bits[..15] == bits;
  }

  lemma IdentifierIgnoresCom(identifier: bv16, com: bv8)
    requires com <= 0x0F
    ensures IdentifierWord(IdHigh(identifier), IdLowAndCom(identifier, com)) == AckWord(identifier)
  {
  }

  /** Expanded identifiers are equal exactly when the 12 identifier bits are, and none looks like "disabled". */
  lemma AckWordInjective(x: bv16, y: bv16)
    ensures AckWord(x) == AckWord(y) <==> x & 0x0FFF == y & 0x0FFF
    ensures AckWord(x) != ACK_DISABLED
  {
  }

  lemma ComSlices(identifier: bv16, com: bv8)
    requires com <= 0x0F
    ensures var b := IdLowAndCom(identifier, com);
            com == COM_REQUIRE_ACK <==>
              HasBit(b, 0x08) && HasBit(b, 0x04) && !HasBit(b, 0x02) && !HasBit(b, 0x01)
  {
  }

  lemma ComOnBus(slices: seq<bool>, frame: seq<bv8>)
    requires |frame| >= 5 && StartsWith(slices, frame)
    ensures slices[25..30] == [HasBit(frame[2], 0x08), HasBit(frame[2], 0x04), HasBit(frame[2], 0x02),
                               HasBit(frame[2], 0x01), !HasBit(frame[2], 0x01)]
  {
    hide HasBit, FrameSlices;
    forall i | 25 <= i < 30 ensures slices[i] == Expanded(frame[2], i - 20) {
      assert slices[..10 * |frame|][i] == slices[i];
      SliceOf(frame, i);
    }
  }

  predicate AsksForAck(com: bv8) { com == COM_REQUIRE_ACK }

  lemma ComMatches(slices: seq<bool>, identifier: bv16, com: bv8, data: seq<bv8>)
    requires StartsWith(slices, Frame(identifier, com, data)) && com <= 0x0F
    ensures slices[25..30] == [true, true, false, false, true] <==> AsksForAck(com)
  {
    var b := IdLowAndCom(identifier, com);
    var frame := Frame(identifier, com, data);
    assert frame[2] == b;
    ComSlices(identifier, com);
    hide Frame, StartsWith, HasBit, IdLowAndCom;
    ComOnBus(slices, frame);
    assert slices[25..30][0] == HasBit(b, 0x08) && slices[25..30][1] == HasBit(b, 0x04);
    assert slices[25..30][2] == HasBit(b, 0x02) && slices[25..30][3] == HasBit(b, 0x01);
  }

  predicate Configured(own: bv16, enabled: bool, identifier: bv16) {
    (if enabled then AckWord(own) else ACK_DISABLED) == AckWord(identifier)
  }

  lemma ConfiguredExactly(own: bv16, enabled: bool, identifier: bv16)
    requires own <= 0x0FFF
    ensures Configured(own, enabled, identifier) <==> enabled && own == identifier & 0x0FFF
  {
    assert own & 0x0FFF == own;
    hide AckWord;
    AckWordInjective(own, identifier);
    AckWordInjective(identifier, identifier);
  }

  /** With acknowledging set up for `own`, the receiver drives the acknowledge
      slot of a built frame exactly when it is enabled, the frame asks for it
      and the identifiers are equal; anything may follow the frame. */
  lemma AcknowledgedExactly(slices: seq<bool>, identifier: bv16, com: bv8, data: seq<bv8>, own: bv16, enabled: bool)
    requires StartsWith(slices, Frame(identifier, com, data)) && com <= 0x0F && |data| <= 27
    requires own <= 0x0FFF
    ensures Acknowledges(if enabled then AckWord(own) else ACK_DISABLED, slices)
            <==> enabled && com == COM_REQUIRE_ACK && own == identifier & 0x0FFF
  {
    ConfiguredExactly(own, enabled, identifier);
    IdentifierIgnoresCom(identifier, com);
    var frame := Frame(identifier, com, data);
    assert frame[1] == IdHigh(identifier) && frame[2] == IdLowAndCom(identifier, com);
    assert |slices| >= 50;
    hide Frame, StartsWith, IdLowAndCom, IdHigh, AckWord, IdentifierWord, Sample, EodLegal;
    ComMatches(slices, identifier, com, data);
    EodIsLegal(slices, frame);
    SampledIdentifier(slices, frame);
  }

  lemma EodIsLegal(slices: seq<bool>, frame: seq<bv8>)
    requires StartsWith(slices, frame) && 5 <= |frame| <= MAX_DATA + 5
    ensures EodLegal(slices)
  {
    var last := 2 * |frame| - 1;
    assert |slices| >= 10 * |frame|;
    hide StartsWith, EodGroup;
    EodIsLastGroup(slices, frame, 6, 0);
    OnlyLastGroupViolates(slices, frame, last);
    assert 30 + 5 * (last - 6) + 3 == 5 * last + 3;
  }
}
