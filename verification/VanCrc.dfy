/** CRC-15 of the VAN bus: division of the bit string by the generator as the
    reference, the bitwise and the table-driven computation of it, and the check
    of received messages. */
module VanCrc {
  const SOF: bv8 := 0x0E

  /** The remainder register, c14 being the coefficient of the highest power. */
  datatype Crc = Crc(c14: bool, c13: bool, c12: bool, c11: bool, c10: bool, c9: bool, c8: bool, c7: bool,
                     c6: bool, c5: bool, c4: bool, c3: bool, c2: bool, c1: bool, c0: bool)

  const ZERO := Crc(false, false, false, false, false, false, false, false,
                    false, false, false, false, false, false, false)
  const ALL_ONES := Crc(true, true, true, true, true, true, true, true,
                        true, true, true, true, true, true, true)

  // ---- Reference: one bit at a time ----

  /** One step of the division by x^15 + x^11 + x^10 + x^9 + x^8 + x^7 + x^4 + x^3 + x^2 + 1. */
  function BitStep(crc: Crc, bit: bool): Crc {
    var feedback := crc.c14 != bit;
    Crc(crc.c13, crc.c12, crc.c11, crc.c10 != feedback, crc.c9 != feedback,
        crc.c8 != feedback, crc.c7 != feedback, crc.c6 != feedback, crc.c5, crc.c4,
        crc.c3 != feedback, crc.c2 != feedback, crc.c1 != feedback, crc.c0, feedback)
  }

  function Divide(crc: Crc, bits: seq<bool>): Crc {
    if bits == [] then crc else BitStep(Divide(crc, bits[..|bits| - 1]), bits[|bits| - 1])
  }

  predicate HasBit(b: bv8, m: bv8) { b & m != 0 }

  predicate HasWordBit(w: bv16, m: bv16) { w & m != 0 }

  /** Bit i of a byte, the most significant being bit 0: the order on the bus. */
  function Mask(i: nat): (m: bv8)
    requires i < 8
  {
    [0x80, 0x40, 0x20, 0x10, 0x08, 0x04, 0x02, 0x01][i]
  }

  function ByteBits(b: bv8): (r: seq<bool>)
    ensures |r| == 8
  {
    seq(8, i requires 0 <= i < 8 => HasBit(b, Mask(i)))
  }

  function Bits(data: seq<bv8>): (r: seq<bool>)
    ensures |r| == 8 * |data|
  {
    if data == [] then [] else Bits(data[..|data| - 1]) + ByteBits(data[|data| - 1])
  }

  function Xor(x: Crc, y: Crc): Crc {
    Crc(x.c14 != y.c14, x.c13 != y.c13, x.c12 != y.c12, x.c11 != y.c11, x.c10 != y.c10,
        x.c9 != y.c9, x.c8 != y.c8, x.c7 != y.c7, x.c6 != y.c6, x.c5 != y.c5,
        x.c4 != y.c4, x.c3 != y.c3, x.c2 != y.c2, x.c1 != y.c1, x.c0 != y.c0)
  }

  function FromWord(w: bv16): Crc {
    Crc(HasWordBit(w, 0x4000), HasWordBit(w, 0x2000), HasWordBit(w, 0x1000), HasWordBit(w, 0x0800),
        HasWordBit(w, 0x0400), HasWordBit(w, 0x0200), HasWordBit(w, 0x0100), HasWordBit(w, 0x0080),
        HasWordBit(w, 0x0040), HasWordBit(w, 0x0020), HasWordBit(w, 0x0010), HasWordBit(w, 0x0008),
        HasWordBit(w, 0x0004), HasWordBit(w, 0x0002), HasWordBit(w, 0x0001))
  }

  function ToWord(crc: Crc): bv16 {
    (if crc.c14 then 0x4000 else 0) | (if crc.c13 then 0x2000 else 0) | (if crc.c12 then 0x1000 else 0) |
    (if crc.c11 then 0x0800 else 0) | (if crc.c10 then 0x0400 else 0) | (if crc.c9 then 0x0200 else 0) |
    (if crc.c8 then 0x0100 else 0) | (if crc.c7 then 0x0080 else 0) | (if crc.c6 then 0x0040 else 0) |
    (if crc.c5 then 0x0020 else 0) | (if crc.c4 then 0x0010 else 0) | (if crc.c3 then 0x0008 else 0) |
    (if crc.c2 then 0x0004 else 0) | (if crc.c1 then 0x0002 else 0) | (if crc.c0 then 0x0001 else 0)
  }

  /** The frame check sequence: 15 bits of CRC, inverted, in the upper bits of a word. */
  function Fcs(data: seq<bv8>): bv16 {
    ToWord(Xor(Divide(ALL_ONES, Bits(data)), ALL_ONES)) << 1
  }

  function Word(high: bv8, low: bv8): bv16 {
    ((high as bv16) << 8) | (low as bv16)
  }

  predicate CrcOk(message: seq<bv8>) {
    && |message| >= 3
    && var offset := if message[0] == SOF then 1 else 0;
       && Fcs(message[offset..|message| - 2]) == Word(message[|message| - 2], message[|message| - 1])
  }

  // ---- Division of longer strings ----

  lemma {:induction false} DivideAppend(crc: Crc, xs: seq<bool>, ys: seq<bool>)
    ensures Divide(crc, xs + ys) == Divide(Divide(crc, xs), ys)
  {
    if ys == [] {
      assert xs + ys == xs;
    } else {
      var front := ys[..|ys| - 1];
      assert (xs + ys)[..|xs + ys| - 1] == xs + front;
      DivideAppend(crc, xs, front);
    }
  }

  lemma DivideFirst(crc: Crc, bits: seq<bool>)
    requires bits != []
    ensures Divide(crc, bits) == Divide(BitStep(crc, bits[0]), bits[1..])
  {
    assert bits == bits[..1] + bits[1..];
    DivideAppend(crc, bits[..1], bits[1..]);
    assert bits[..1][..0] == [];
  }

  function ByteStep(crc: Crc, b: bv8): Crc {
    Divide(crc, ByteBits(b))
  }

  lemma DivideBytes(crc: Crc, data: seq<bv8>, b: bv8)
    ensures Divide(crc, Bits(data + [b])) == ByteStep(Divide(crc, Bits(data)), b)
  {
    assert (data + [b])[..|data|] == data;
    DivideAppend(crc, Bits(data), ByteBits(b));
  }

  lemma DividePrefix(data: seq<bv8>, i: nat)
    requires i < |data|
    ensures Divide(ALL_ONES, Bits(data[..i + 1])) == ByteStep(Divide(ALL_ONES, Bits(data[..i])), data[i])
  {
    hide ByteStep;
    DivideBytes(ALL_ONES, data[..i], data[i]);
    assert data[..i] + [data[i]] == data[..i + 1];
  }

  // ---- The bitwise implementation ----

  lemma StepOnWord(crc: bv16, bit: bool)
    ensures FromWord(((crc << 1) & 0x7FFF) ^ (if ((crc & 0x4000) != 0) != bit then 0x0F9D else 0))
         == BitStep(FromWord(crc), bit)
  {
  }

  method Crc15(data: seq<bv8>) returns (fcs: bv16)
    ensures fcs == Fcs(data)
  {
    var crc: bv16 := 0x7FFF;
    assert FromWord(crc) == Divide(ALL_ONES, Bits([]));
    hide FromWord, ToWord, Xor, ByteStep, Divide, Bits;
    assert data[..0] == [];
    for i := 0 to |data|
      invariant FromWord(crc) == Divide(ALL_ONES, Bits(data[..i]))
    {
      crc := Crc15Byte(crc, data[i]);
      DividePrefix(data, i);
    }
    assert data[..|data|] == data;
    FinishedWord(crc);
    return (crc ^ 0x7FFF) << 1;
  }

  /** The inner loop: one data byte, shifted out at the top. */
  method Crc15Byte(crc0: bv16, b: bv8) returns (crc: bv16)
    ensures FromWord(crc) == ByteStep(FromWord(crc0), b)
  {
    hide FromWord, ByteBits;
    crc := crc0;
    var currentByte := b;
    assert ByteBits(b)[..8] == ByteBits(b);
    for j := 0 to 8
      invariant Divide(FromWord(crc), ByteBits(currentByte)[..8 - j]) == ByteStep(FromWord(crc0), b)
    {
      ShiftedDivide(FromWord(crc), currentByte, 8 - j);
      crc := Crc15Bit(crc, currentByte);
      currentByte := currentByte << 1;
    }
  }

  lemma ShiftedDivide(crc: Crc, b: bv8, n: nat)
    requires 1 <= n <= 8
    ensures Divide(crc, ByteBits(b)[..n]) == Divide(BitStep(crc, ByteBits(b)[0]), ByteBits(b << 1)[..n - 1])
  {
    ShiftedBits(b);
    hide ByteBits;
    var bits := ByteBits(b)[..n];
    assert bits[1..] == ByteBits(b << 1)[..n - 1] by {
      assert bits[1..] == ByteBits(b)[1..][..n - 1];
      assert ByteBits(b << 1)[..7][..n - 1] == ByteBits(b << 1)[..n - 1];
    }
    DivideFirst(crc, bits);
  }

  method Crc15Bit(crc0: bv16, currentByte: bv8) returns (crc: bv16)
    ensures FromWord(crc) == BitStep(FromWord(crc0), ByteBits(currentByte)[0])
  {
    var bit := crc0 & (1 << 14) != 0;
    if currentByte & 0x80 != 0 {
      bit := !bit;
    }
    crc := ((crc0 << 1) & 0x7FFF) ^ (if bit then 0x0F9D else 0);
    StepOnWord(crc0, currentByte & 0x80 != 0);
  }

  lemma ShiftedBits(b: bv8)
    ensures ByteBits(b << 1)[..7] == ByteBits(b)[1..]
  {
  }

  lemma FinishIgnoresBit15(crc: bv16)
    ensures (crc ^ 0x7FFF) << 1 == ((crc & 0x7FFF) ^ 0x7FFF) << 1
  {
  }

  lemma InvertWord(w: bv16)
    ensures ToWord(Xor(FromWord(w), ALL_ONES)) == (w & 0x7FFF) ^ 0x7FFF
  {
  }

  lemma FinishedWord(crc: bv16)
    ensures (crc ^ 0x7FFF) << 1 == ToWord(Xor(FromWord(crc), ALL_ONES)) << 1
  {
    hide FromWord, ToWord, Xor;
    InvertWord(crc);
    FinishIgnoresBit15(crc);
  }

  // ---- The lookup table ----

  function Pick(column: bv8, e0: bv16, e1: bv16, e2: bv16, e3: bv16,
                e4: bv16, e5: bv16, e6: bv16, e7: bv16): bv16 {
    if column == 0 then e0 else if column == 1 then e1 else if column == 2 then e2 else if column == 3 then e3
    else if column == 4 then e4 else if column == 5 then e5 else if column == 6 then e6 else e7
  }

  function Rows0(row: bv8, column: bv8): bv16 {
    match row
    case 0 => Pick(column, 0x0000, 0x0F9D, 0x1F3A, 0x10A7, 0x3E74, 0x31E9, 0x214E, 0x2ED3)
    case 1 => Pick(column, 0x7CE8, 0x7375, 0x63D2, 0x6C4F, 0x429C, 0x4D01, 0x5DA6, 0x523B)
    case 2 => Pick(column, 0xF64D, 0xF9D0, 0xE977, 0xE6EA, 0xC839, 0xC7A4, 0xD703, 0xD89E)
    case 3 => Pick(column, 0x8AA5, 0x8538, 0x959F, 0x9A02, 0xB4D1, 0xBB4C, 0xABEB, 0xA476)
    case 4 => Pick(column, 0xE307, 0xEC9A, 0xFC3D, 0xF3A0, 0xDD73, 0xD2EE, 0xC249, 0xCDD4)
    case 5 => Pick(column, 0x9FEF, 0x9072, 0x80D5, 0x8F48, 0xA19B, 0xAE06, 0xBEA1, 0xB13C)
    case 6 => Pick(column, 0x154A, 0x1AD7, 0x0A70, 0x05ED, 0x2B3E, 0x24A3, 0x3404, 0x3B99)
    case _ => Pick(column, 0x69A2, 0x663F, 0x7698, 0x7905, 0x57D6, 0x584B, 0x48EC, 0x4771)
  }

  function Rows8(row: bv8, column: bv8): bv16 {
    match row
    case 0 => Pick(column, 0xC993, 0xC60E, 0xD6A9, 0xD934, 0xF7E7, 0xF87A, 0xE8DD, 0xE740)
    case 1 => Pick(column, 0xB57B, 0xBAE6, 0xAA41, 0xA5DC, 0x8B0F, 0x8492, 0x9435, 0x9BA8)
    case 2 => Pick(column, 0x3FDE, 0x3043, 0x20E4, 0x2F79, 0x01AA, 0x0E37, 0x1E90, 0x110D)
    case 3 => Pick(column, 0x4336, 0x4CAB, 0x5C0C, 0x5391, 0x7D42, 0x72DF, 0x6278, 0x6DE5)
    case 4 => Pick(column, 0x2A94, 0x2509, 0x35AE, 0x3A33, 0x14E0, 0x1B7D, 0x0BDA, 0x0447)
    case 5 => Pick(column, 0x567C, 0x59E1, 0x4946, 0x46DB, 0x6808, 0x6795, 0x7732, 0x78AF)
    case 6 => Pick(column, 0xDCD9, 0xD344, 0xC3E3, 0xCC7E, 0xE2AD, 0xED30, 0xFD97, 0xF20A)
    case _ => Pick(column, 0xA031, 0xAFAC, 0xBF0B, 0xB096, 0x9E45, 0x91D8, 0x817F, 0x8EE2)
  }

  function Rows16(row: bv8, column: bv8): bv16 {
    match row
    case 0 => Pick(column, 0x9CBB, 0x9326, 0x8381, 0x8C1C, 0xA2CF, 0xAD52, 0xBDF5, 0xB268)
    case 1 => Pick(column, 0xE053, 0xEFCE, 0xFF69, 0xF0F4, 0xDE27, 0xD1BA, 0xC11D, 0xCE80)
    case 2 => Pick(column, 0x6AF6, 0x656B, 0x75CC, 0x7A51, 0x5482, 0x5B1F, 0x4BB8, 0x4425)
    case 3 => Pick(column, 0x161E, 0x1983, 0x0924, 0x06B9, 0x286A, 0x27F7, 0x3750, 0x38CD)
    case 4 => Pick(column, 0x7FBC, 0x7021, 0x6086, 0x6F1B, 0x41C8, 0x4E55, 0x5EF2, 0x516F)
    case 5 => Pick(column, 0x0354, 0x0CC9, 0x1C6E, 0x13F3, 0x3D20, 0x32BD, 0x221A, 0x2D87)
    case 6 => Pick(column, 0x89F1, 0x866C, 0x96CB, 0x9956, 0xB785, 0xB818, 0xA8BF, 0xA722)
    case _ => Pick(column, 0xF519, 0xFA84, 0xEA23, 0xE5BE, 0xCB6D, 0xC4F0, 0xD457, 0xDBCA)
  }

  function Rows24(row: bv8, column: bv8): bv16 {
    match row
    case 0 => Pick(column, 0x5528, 0x5AB5, 0x4A12, 0x458F, 0x6B5C, 0x64C1, 0x7466, 0x7BFB)
    case 1 => Pick(column, 0x29C0, 0x265D, 0x36FA, 0x3967, 0x17B4, 0x1829, 0x088E, 0x0713)
    case 2 => Pick(column, 0xA365, 0xACF8, 0xBC5F, 0xB3C2, 0x9D11, 0x928C, 0x822B, 0x8DB6)
    case 3 => Pick(column, 0xDF8D, 0xD010, 0xC0B7, 0xCF2A, 0xE1F9, 0xEE64, 0xFEC3, 0xF15E)
    case 4 => Pick(column, 0xB62F, 0xB9B2, 0xA915, 0xA688, 0x885B, 0x87C6, 0x9761, 0x98FC)
    case 5 => Pick(column, 0xCAC7, 0xC55A, 0xD5FD, 0xDA60, 0xF4B3, 0xFB2E, 0xEB89, 0xE414)
    case 6 => Pick(column, 0x4062, 0x4FFF, 0x5F58, 0x50C5, 0x7E16, 0x718B, 0x612C, 0x6EB1)
    case _ => Pick(column, 0x3C8A, 0x3317, 0x23B0, 0x2C2D, 0x02FE, 0x0D63, 0x1DC4, 0x1259)
  }

  /** Entry i of the lookup table: row i / 8, column i % 8. Bit 15 of an entry is not part of the CRC. */
  function Table(i: bv8): bv16 {
    var row, column := (i >> 3) & 7, i & 7;
    match i >> 6
    case 0 => Rows0(row, column)
    case 1 => Rows8(row, column)
    case 2 => Rows16(row, column)
    case _ => Rows24(row, column)
  }

  function Part(i: bv8, m: bv8, word: bv16): bv16 {
    if i & m != 0 then word else 0
  }

  /** The low 15 bits of entry i are the sum of one word for each bit set in i. */
  function Spread(i: bv8): bv16 {
    Part(i, 0x01, 0x0F9D) ^ Part(i, 0x02, 0x1F3A)
    ^ Part(i, 0x04, 0x3E74) ^ Part(i, 0x08, 0x7CE8)
    ^ Part(i, 0x10, 0x764D) ^ Part(i, 0x20, 0x6307)
    ^ Part(i, 0x40, 0x4993) ^ Part(i, 0x80, 0x1CBB)
  }

  lemma FirstQuarter(i: bv8)
    requires i >> 6 == 0
    ensures Rows0((i >> 3) & 7, i & 7) & 0x7FFF == Spread(i)
  {
    if (i >> 3) & 7 == 0 { assert Rows0((i >> 3) & 7, i & 7) & 0x7FFF == Spread(i); }
    else if (i >> 3) & 7 == 1 { assert Rows0((i >> 3) & 7, i & 7) & 0x7FFF == Spread(i); }
    else if (i >> 3) & 7 == 2 { assert Rows0((i >> 3) & 7, i & 7) & 0x7FFF == Spread(i); }
    else if (i >> 3) & 7 == 3 { assert Rows0((i >> 3) & 7, i & 7) & 0x7FFF == Spread(i); }
    else if (i >> 3) & 7 == 4 { assert Rows0((i >> 3) & 7, i & 7) & 0x7FFF == Spread(i); }
    else if (i >> 3) & 7 == 5 { assert Rows0((i >> 3) & 7, i & 7) & 0x7FFF == Spread(i); }
    else if (i >> 3) & 7 == 6 { assert Rows0((i >> 3) & 7, i & 7) & 0x7FFF == Spread(i); }
    else if (i >> 3) & 7 == 7 { assert Rows0((i >> 3) & 7, i & 7) & 0x7FFF == Spread(i); }
  }

  lemma SecondQuarter(i: bv8)
    requires i >> 6 == 1
    ensures Rows8((i >> 3) & 7, i & 7) & 0x7FFF == Spread(i)
  {
    if (i >> 3) & 7 == 0 { assert Rows8((i >> 3) & 7, i & 7) & 0x7FFF == Spread(i); }
    else if (i >> 3) & 7 == 1 { assert Rows8((i >> 3) & 7, i & 7) & 0x7FFF == Spread(i); }
    else if (i >> 3) & 7 == 2 { assert Rows8((i >> 3) & 7, i & 7) & 0x7FFF == Spread(i); }
    else if (i >> 3) & 7 == 3 { assert Rows8((i >> 3) & 7, i & 7) & 0x7FFF == Spread(i); }
    else if (i >> 3) & 7 == 4 { assert Rows8((i >> 3) & 7, i & 7) & 0x7FFF == Spread(i); }
    else if (i >> 3) & 7 == 5 { assert Rows8((i >> 3) & 7, i & 7) & 0x7FFF == Spread(i); }
    else if (i >> 3) & 7 == 6 { assert Rows8((i >> 3) & 7, i & 7) & 0x7FFF == Spread(i); }
    else if (i >> 3) & 7 == 7 { assert Rows8((i >> 3) & 7, i & 7) & 0x7FFF == Spread(i); }
  }

  lemma ThirdQuarter(i: bv8)
    requires i >> 6 == 2
    ensures Rows16((i >> 3) & 7, i & 7) & 0x7FFF == Spread(i)
  {
    if (i >> 3) & 7 == 0 { assert Rows16((i >> 3) & 7, i & 7) & 0x7FFF == Spread(i); }
    else if (i >> 3) & 7 == 1 { assert Rows16((i >> 3) & 7, i & 7) & 0x7FFF == Spread(i); }
    else if (i >> 3) & 7 == 2 { assert Rows16((i >> 3) & 7, i & 7) & 0x7FFF == Spread(i); }
    else if (i >> 3) & 7 == 3 { assert Rows16((i >> 3) & 7, i & 7) & 0x7FFF == Spread(i); }
    else if (i >> 3) & 7 == 4 { assert Rows16((i >> 3) & 7, i & 7) & 0x7FFF == Spread(i); }
    else if (i >> 3) & 7 == 5 { assert Rows16((i >> 3) & 7, i & 7) & 0x7FFF == Spread(i); }
    else if (i >> 3) & 7 == 6 { assert Rows16((i >> 3) & 7, i & 7) & 0x7FFF == Spread(i); }
    else if (i >> 3) & 7 == 7 { assert Rows16((i >> 3) & 7, i & 7) & 0x7FFF == Spread(i); }
  }

  lemma LastQuarter(i: bv8)
    requires i >> 6 == 3
    ensures Rows24((i >> 3) & 7, i & 7) & 0x7FFF == Spread(i)
  {
    if (i >> 3) & 7 == 0 { assert Rows24((i >> 3) & 7, i & 7) & 0x7FFF == Spread(i); }
    else if (i >> 3) & 7 == 1 { assert Rows24((i >> 3) & 7, i & 7) & 0x7FFF == Spread(i); }
    else if (i >> 3) & 7 == 2 { assert Rows24((i >> 3) & 7, i & 7) & 0x7FFF == Spread(i); }
    else if (i >> 3) & 7 == 3 { assert Rows24((i >> 3) & 7, i & 7) & 0x7FFF == Spread(i); }
    else if (i >> 3) & 7 == 4 { assert Rows24((i >> 3) & 7, i & 7) & 0x7FFF == Spread(i); }
    else if (i >> 3) & 7 == 5 { assert Rows24((i >> 3) & 7, i & 7) & 0x7FFF == Spread(i); }
    else if (i >> 3) & 7 == 6 { assert Rows24((i >> 3) & 7, i & 7) & 0x7FFF == Spread(i); }
    else if (i >> 3) & 7 == 7 { assert Rows24((i >> 3) & 7, i & 7) & 0x7FFF == Spread(i); }
  }

  // ---- Linearity of the division ----

  lemma BitStepLinear(x: Crc, y: Crc, p: bool, q: bool)
    ensures BitStep(Xor(x, y), p != q) == Xor(BitStep(x, p), BitStep(y, q))
  {
  }

  function XorBits(xs: seq<bool>, ys: seq<bool>): (r: seq<bool>)
    requires |xs| == |ys|
    ensures |r| == |xs|
  {
    seq(|xs|, i requires 0 <= i < |xs| => xs[i] != ys[i])
  }

  lemma {:induction false} DivideLinear(x: Crc, y: Crc, xs: seq<bool>, ys: seq<bool>)
    requires |xs| == |ys|
    ensures Divide(Xor(x, y), XorBits(xs, ys)) == Xor(Divide(x, xs), Divide(y, ys))
  {
    if xs != [] {
      var n := |xs| - 1;
      assert XorBits(xs, ys)[..n] == XorBits(xs[..n], ys[..n]);
      DivideLinear(x, y, xs[..n], ys[..n]);
      BitStepLinear(Divide(x, xs[..n]), Divide(y, ys[..n]), xs[n], ys[n]);
    }
  }

  // Addition of polynomials, on words and on bytes.
  function Add(x: bv16, y: bv16): bv16 { x ^ y }

  function AddByte(a: bv8, b: bv8): bv8 { a ^ b }

  lemma HasBitXor(a: bv8, b: bv8, m: bv8)
    requires m in [0x80, 0x40, 0x20, 0x10, 0x08, 0x04, 0x02, 0x01]
    ensures HasBit(a ^ b, m) <==> HasBit(a, m) != HasBit(b, m)
  {
  }

  lemma ByteBitsXor(a: bv8, b: bv8)
    ensures ByteBits(AddByte(a, b)) == XorBits(ByteBits(a), ByteBits(b))
  {
    forall i | 0 <= i < 8 ensures HasBit(AddByte(a, b), Mask(i)) <==> HasBit(a, Mask(i)) != HasBit(b, Mask(i)) {
      HasBitXor(a, b, Mask(i));
    }
    hide HasBit, Mask, AddByte;
  }

  lemma ByteStepLinear(x: Crc, y: Crc, a: bv8, b: bv8)
    ensures ByteStep(Xor(x, y), AddByte(a, b)) == Xor(ByteStep(x, a), ByteStep(y, b))
  {
    hide Xor, Divide, ByteBits, AddByte;
    ByteBitsXor(a, b);
    DivideLinear(x, y, ByteBits(a), ByteBits(b));
  }

  predicate IsOneBit(m: bv16) { m & (m - 1) == 0 }

  predicate AddsAt(w: bv16, x: bv16, y: bv16, m: bv16) {
    HasWordBit(w, m) <==> HasWordBit(x, m) != HasWordBit(y, m)
  }

  lemma AddsAtBit(x: bv16, y: bv16, m: bv16)
    ensures IsOneBit(m) ==> AddsAt(Add(x, y), x, y, m)
  {
  }

  lemma AddsEverywhere(w: bv16, x: bv16, y: bv16)
    requires AddsAt(w, x, y, 0x4000) && AddsAt(w, x, y, 0x2000) && AddsAt(w, x, y, 0x1000)
    requires AddsAt(w, x, y, 0x0800) && AddsAt(w, x, y, 0x0400) && AddsAt(w, x, y, 0x0200)
    requires AddsAt(w, x, y, 0x0100) && AddsAt(w, x, y, 0x0080) && AddsAt(w, x, y, 0x0040)
    requires AddsAt(w, x, y, 0x0020) && AddsAt(w, x, y, 0x0010) && AddsAt(w, x, y, 0x0008)
    requires AddsAt(w, x, y, 0x0004) && AddsAt(w, x, y, 0x0002) && AddsAt(w, x, y, 0x0001)
    ensures FromWord(w) == Xor(FromWord(x), FromWord(y))
  {
    hide HasWordBit;
  }

  lemma WordXor(x: bv16, y: bv16)
    ensures FromWord(Add(x, y)) == Xor(FromWord(x), FromWord(y))
  {
    AddsAtBit(x, y, 0x4000);
    AddsAtBit(x, y, 0x2000);
    AddsAtBit(x, y, 0x1000);
    AddsAtBit(x, y, 0x0800);
    AddsAtBit(x, y, 0x0400);
    AddsAtBit(x, y, 0x0200);
    AddsAtBit(x, y, 0x0100);
    AddsAtBit(x, y, 0x0080);
    AddsAtBit(x, y, 0x0040);
    AddsAtBit(x, y, 0x0020);
    AddsAtBit(x, y, 0x0010);
    AddsAtBit(x, y, 0x0008);
    AddsAtBit(x, y, 0x0004);
    AddsAtBit(x, y, 0x0002);
    AddsAtBit(x, y, 0x0001);
    hide HasWordBit, Add, AddsAt;
    AddsEverywhere(Add(x, y), x, y);
  }

  lemma WordMask(x: bv16)
    ensures FromWord(x & 0x7FFF) == FromWord(x)
  {
  }

  // ---- Every table entry is the division of its index ----

  lemma BitDivided(crc: Crc, b: seq<bool>, k: nat)
    requires k < |b|
    ensures Divide(crc, b[..k + 1]) == BitStep(Divide(crc, b[..k]), b[k])
  {
    hide BitStep;
    assert b[..k + 1][..k] == b[..k];
  }

  lemma DivideEight(crc: Crc, b: seq<bool>)
    requires |b| == 8
    ensures Divide(crc, b[..1]) == BitStep(crc, b[0]) && Divide(crc, b[..2]) == BitStep(Divide(crc, b[..1]), b[1])
    ensures Divide(crc, b[..3]) == BitStep(Divide(crc, b[..2]), b[2])
    ensures Divide(crc, b[..4]) == BitStep(Divide(crc, b[..3]), b[3])
    ensures Divide(crc, b[..5]) == BitStep(Divide(crc, b[..4]), b[4])
    ensures Divide(crc, b[..6]) == BitStep(Divide(crc, b[..5]), b[5])
    ensures Divide(crc, b[..7]) == BitStep(Divide(crc, b[..6]), b[6])
    ensures Divide(crc, b) == BitStep(Divide(crc, b[..7]), b[7])
  {
    hide BitStep;
    assert Divide(crc, b[..0]) == crc;
    hide Divide;
    BitDivided(crc, b, 0);
    BitDivided(crc, b, 1);
    BitDivided(crc, b, 2);
    BitDivided(crc, b, 3);
    BitDivided(crc, b, 4);
    BitDivided(crc, b, 5);
    BitDivided(crc, b, 6);
    BitDivided(crc, b, 7);
    assert b[..8] == b;
  }

  predicate BasisWord(m: bv8, word: bv16) {
    (m, word) in [(0x01, 0x0F9D), (0x02, 0x1F3A), (0x04, 0x3E74), (0x08, 0x7CE8),
                           (0x10, 0x764D), (0x20, 0x6307), (0x40, 0x4993), (0x80, 0x1CBB)]
  }

  /** The byte with one bit set, as it goes over the bus. */
  lemma OneBitByte(m: bv8)
    requires m in [0x80, 0x40, 0x20, 0x10, 0x08, 0x04, 0x02, 0x01]
    ensures ByteBits(m) == [m == 0x80, m == 0x40, m == 0x20, m == 0x10, m == 0x08, m == 0x04, m == 0x02, m == 0x01]
  {
  }

  /** The first word is the generator; each one after it is a step further. */
  lemma FirstBasisStep()
    ensures BitStep(ZERO, false) == ZERO && BitStep(ZERO, true) == FromWord(0x0F9D)
  {
  }

  lemma LowBasisSteps()
    ensures BitStep(FromWord(0x0F9D), false) == FromWord(0x1F3A)
    ensures BitStep(FromWord(0x1F3A), false) == FromWord(0x3E74)
    ensures BitStep(FromWord(0x3E74), false) == FromWord(0x7CE8)
  {
  }

  lemma HighBasisSteps()
    ensures BitStep(FromWord(0x7CE8), false) == FromWord(0x764D)
    ensures BitStep(FromWord(0x764D), false) == FromWord(0x6307)
    ensures BitStep(FromWord(0x6307), false) == FromWord(0x4993)
    ensures BitStep(FromWord(0x4993), false) == FromWord(0x1CBB)
  {
  }

  lemma BasisDivision(m: bv8, word: bv16)
    requires BasisWord(m, word)
    ensures ByteStep(ZERO, m) == FromWord(word)
  {
    hide BitStep, FromWord, ByteBits, Divide;
    OneBitByte(m);
    FirstBasisStep();
    LowBasisSteps();
    HighBasisSteps();
    DivideEight(ZERO, ByteBits(m));
  }

  lemma ZeroDivision()
    ensures ByteStep(ZERO, 0) == ZERO == FromWord(0)
  {
    DivideEight(ZERO, ByteBits(0));
  }

  /** One more bit of the index adds one more word to the sum. */
  lemma AddPart(sum: bv16, bits: bv8, i: bv8, m: bv8, word: bv16) returns (sum': bv16, bits': bv8)
    requires BasisWord(m, word) && FromWord(sum) == ByteStep(ZERO, bits)
    ensures sum' == Add(sum, Part(i, m, word)) && bits' == AddByte(bits, i & m)
    ensures FromWord(sum') == ByteStep(ZERO, bits')
  {
    BasisDivision(m, word);
    ZeroDivision();
    OneOrNone(i, m, word);
    var part, bit := Part(i, m, word), i & m;
    hide ByteStep, FromWord, BasisWord, Part, Add, AddByte;
    assert Xor(ZERO, ZERO) == ZERO;
    hide Xor;
    WordXor(sum, part);
    ByteStepLinear(ZERO, ZERO, bits, bit);
    sum', bits' := Add(sum, part), AddByte(bits, bit);
  }

  lemma OneOrNone(i: bv8, m: bv8, word: bv16)
    requires BasisWord(m, word)
    ensures (i & m == m && Part(i, m, word) == word) || (i & m == 0 && Part(i, m, word) == 0)
  {
  }

  function SumOfParts(i: bv8): bv16 {
    Add(Add(Add(Add(Add(Add(Add(Add(0,
      Part(i, 0x01, 0x0F9D)), Part(i, 0x02, 0x1F3A)), Part(i, 0x04, 0x3E74)), Part(i, 0x08, 0x7CE8)),
      Part(i, 0x10, 0x764D)), Part(i, 0x20, 0x6307)), Part(i, 0x40, 0x4993)), Part(i, 0x80, 0x1CBB))
  }

  function SumOfBits(i: bv8): bv8 {
    AddByte(AddByte(AddByte(AddByte(AddByte(AddByte(AddByte(AddByte(0,
      i & 0x01), i & 0x02), i & 0x04), i & 0x08), i & 0x10), i & 0x20), i & 0x40), i & 0x80)
  }

  lemma SumsAre(i: bv8)
    ensures SumOfParts(i) == Spread(i) && SumOfBits(i) == i
  {
  }

  lemma SumIsByteStep(i: bv8)
    ensures FromWord(SumOfParts(i)) == ByteStep(ZERO, SumOfBits(i))
  {
    var s0: bv16, b0: bv8 := 0, 0;
    ZeroDivision();
    hide FromWord, ByteStep, Part, Add, AddByte;
    var s1, b1 := AddPart(s0, b0, i, 0x01, 0x0F9D);
    var s2, b2 := AddPart(s1, b1, i, 0x02, 0x1F3A);
    var s3, b3 := AddPart(s2, b2, i, 0x04, 0x3E74);
    var s4, b4 := AddPart(s3, b3, i, 0x08, 0x7CE8);
    var s5, b5 := AddPart(s4, b4, i, 0x10, 0x764D);
    var s6, b6 := AddPart(s5, b5, i, 0x20, 0x6307);
    var s7, b7 := AddPart(s6, b6, i, 0x40, 0x4993);
    var s8, b8 := AddPart(s7, b7, i, 0x80, 0x1CBB);
  }

  lemma SpreadIsByteStep(i: bv8)
    ensures FromWord(Spread(i)) == ByteStep(ZERO, i)
  {
    hide FromWord, ByteStep, Spread, SumOfParts, SumOfBits;
    SumsAre(i);
    SumIsByteStep(i);
  }

  /** Entry i is the division of the byte i, whatever its bit 15. */
  lemma TableEntry(i: bv8)
    ensures FromWord(Table(i)) == ByteStep(ZERO, i)
  {
    TableIsSpread(i);
    hide FromWord, ByteStep, Spread, Table;
    WordMask(Table(i));
    SpreadIsByteStep(i);
  }

  lemma TableIsSpread(i: bv8)
    ensures Table(i) & 0x7FFF == Spread(i)
  {
    hide Spread, Rows0, Rows8, Rows16, Rows24;
    if i >> 6 == 0 {
      FirstQuarter(i);
    } else if i >> 6 == 1 {
      SecondQuarter(i);
    } else if i >> 6 == 2 {
      ThirdQuarter(i);
    } else {
      assert i >> 6 == 3;
      LastQuarter(i);
    }
  }

  // ---- The table-driven implementation ----

  function TopByte(crc: bv16): bv8 {
    ((crc >> 7) & 0xFF) as bv8
  }

  function Shifted(crc: bv16): bv16 { crc << 8 }

  lemma TopByteBits(crc: bv16)
    ensures HasBit(TopByte(crc), 0x80) == HasWordBit(crc, 0x4000)
    ensures HasBit(TopByte(crc), 0x40) == HasWordBit(crc, 0x2000)
    ensures HasBit(TopByte(crc), 0x20) == HasWordBit(crc, 0x1000)
    ensures HasBit(TopByte(crc), 0x10) == HasWordBit(crc, 0x0800)
    ensures HasBit(TopByte(crc), 0x08) == HasWordBit(crc, 0x0400)
    ensures HasBit(TopByte(crc), 0x04) == HasWordBit(crc, 0x0200)
    ensures HasBit(TopByte(crc), 0x02) == HasWordBit(crc, 0x0100)
    ensures HasBit(TopByte(crc), 0x01) == HasWordBit(crc, 0x0080)
  {
  }

  /** The upper byte of a remainder holds its leading coefficients. */
  lemma LeadingBits(crc: bv16)
    ensures var c, b := FromWord(crc), ByteBits(TopByte(crc));
            && b[0] == c.c14 && b[1] == c.c13 && b[2] == c.c12 && b[3] == c.c11
            && b[4] == c.c10 && b[5] == c.c9 && b[6] == c.c8 && b[7] == c.c7
  {
    hide HasBit, HasWordBit, TopByte;
    TopByteBits(crc);
  }

  lemma ShiftedCoefficients(crc: bv16)
    ensures var c := FromWord(crc);
            FromWord(Shifted(crc)) == Crc(c.c6, c.c5, c.c4, c.c3, c.c2, c.c1, c.c0, false, false, false, false,
                                          false, false, false, false)
  {
  }

  /** While a remainder is divided by its own leading bits, nothing is fed back. */
  lemma EightShifts(c: Crc)
    ensures BitStep(BitStep(BitStep(BitStep(BitStep(BitStep(BitStep(BitStep(c,
              c.c14), c.c13), c.c12), c.c11), c.c10), c.c9), c.c8), c.c7)
         == Crc(c.c6, c.c5, c.c4, c.c3, c.c2, c.c1, c.c0, false, false, false, false, false, false, false, false)
  {
  }

  /** Dividing a remainder's own upper byte only shifts it. */
  lemma OwnByteShifts(crc: bv16)
    ensures ByteStep(FromWord(crc), TopByte(crc)) == FromWord(Shifted(crc))
  {
    hide FromWord, TopByte, ByteBits, Shifted, Divide, BitStep;
    LeadingBits(crc);
    ShiftedCoefficients(crc);
    EightShifts(FromWord(crc));
    DivideEight(FromWord(crc), ByteBits(TopByte(crc)));
  }

  /** A table step on a word with any bit 15 is the bitwise step on its low 15 bits. */
  lemma TableStepIsByteStep(crc: bv16, b: bv8)
    ensures FromWord(Add(Shifted(crc), Table(AddByte(TopByte(crc), b)))) == ByteStep(FromWord(crc), b)
  {
    var h := TopByte(crc);
    assert AddByte(h, AddByte(h, b)) == b;
    hide FromWord, ByteStep, Table, Add, AddByte, TopByte, Shifted;
    TableEntry(AddByte(h, b));
    OwnByteShifts(crc);
    ByteStepLinear(FromWord(crc), ZERO, h, AddByte(h, b));
    assert Xor(FromWord(crc), ZERO) == FromWord(crc);
    WordXor(Shifted(crc), Table(AddByte(h, b)));
  }

  method CalculateCrc(message: seq<bv8>, length: nat, offset: nat) returns (fcs: bv16)
    requires offset + length <= |message|
    ensures fcs == Fcs(message[offset..offset + length])
  {
    ghost var data := message[offset..offset + length];
    var crc: bv16 := 0x7FFF;
    assert FromWord(crc) == Divide(ALL_ONES, Bits([]));
    hide FromWord, ToWord, Xor, ByteStep, Divide, Bits;
    assert data[..0] == [];
    for i := 0 to length
      invariant FromWord(crc) == Divide(ALL_ONES, Bits(data[..i]))
    {
      crc := CalculateCrcByte(crc, message[offset + i]);
      assert data[i] == message[offset + i];
      DividePrefix(data, i);
    }
    assert data[..length] == data;
    FinishedWord(crc);
    return (crc ^ 0x7FFF) << 1;
  }

  method CalculateCrcByte(crc0: bv16, b: bv8) returns (crc: bv16)
    ensures FromWord(crc) == ByteStep(FromWord(crc0), b)
  {
    hide Table, FromWord, ByteStep, TopByte, Shifted, Add, AddByte;
    var high8Bits := TopByte(crc0);
    crc := Shifted(crc0);
    crc := Add(crc, Table(AddByte(high8Bits, b)));
    TableStepIsByteStep(crc0, b);
  }

  method IsCrcOk(message: seq<bv8>) returns (ok: bool)
    requires |message| <= 255
    ensures ok == CrcOk(message)
  {
    if |message| < 3 {
      return false;
    }
    hide Fcs;
    var crcValueInMessage := Word(message[|message| - 2], message[|message| - 1]);
    var offset := if message[0] == SOF then 1 else 0;
    var dataLength := |message| - 2 - offset;
    var calculatedCrc := CalculateCrc(message, dataLength, offset);
    return calculatedCrc == crcValueInMessage;
  }
}
