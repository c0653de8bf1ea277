/** What the CRC of a received message detects: every corruption confined to 15
    consecutive bits, wherever it falls in the data and the check sequence. */
module VanBurst {
  import opened VanCrc

  /** Coefficient i of a remainder, the highest power being coefficient 0. */
  function Coef(c: Crc, i: nat): bool
    requires i < 15
  {
    if i == 0 then c.c14 else if i == 1 then c.c13 else if i == 2 then c.c12 else if i == 3 then c.c11
    else if i == 4 then c.c10 else if i == 5 then c.c9 else if i == 6 then c.c8 else if i == 7 then c.c7
    else if i == 8 then c.c6 else if i == 9 then c.c5 else if i == 10 then c.c4 else if i == 11 then c.c3
    else if i == 12 then c.c2 else if i == 13 then c.c1 else c.c0
  }

  /** The coefficients in bus order. */
  function CrcBits(c: Crc): (r: seq<bool>)
    ensures |r| == 15
  {
    seq(15, i requires 0 <= i < 15 => Coef(c, i))
  }

  // The bits the CRC protects and the bits that carry it.
  function Protected(message: seq<bv8>): (r: seq<bool>)
    requires |message| >= 3
    ensures |r| >= 16
  {
    Bits(message[(if message[0] == SOF then 1 else 0)..])
  }

  predicate SameOutside(x: seq<bool>, y: seq<bool>, from: nat) {
    |x| == |y| && forall i | 0 <= i < |x| && !(from <= i < from + 15) :: x[i] == y[i]
  }

  // ---- An accepted message divides to zero ----

  lemma {:induction false} BitsAppend(a: seq<bv8>, b: seq<bv8>)
    ensures Bits(a + b) == Bits(a) + Bits(b)
  {
    if b == [] {
      assert a + b == a;
    } else {
      var front := b[..|b| - 1];
      assert (a + b)[..|a + b| - 1] == a + front;
      BitsAppend(a, front);
    }
  }

  lemma TopBits(c: Crc)
    ensures HasWordBit(ToWord(c), 0x4000) == c.c14
    ensures HasWordBit(ToWord(c), 0x2000) == c.c13
    ensures HasWordBit(ToWord(c), 0x1000) == c.c12
  {
  }

  lemma UpperBits(c: Crc)
    ensures HasWordBit(ToWord(c), 0x0800) == c.c11
    ensures HasWordBit(ToWord(c), 0x0400) == c.c10
    ensures HasWordBit(ToWord(c), 0x0200) == c.c9
  {
  }

  lemma MiddleBits(c: Crc)
    ensures HasWordBit(ToWord(c), 0x0100) == c.c8
    ensures HasWordBit(ToWord(c), 0x0080) == c.c7
    ensures HasWordBit(ToWord(c), 0x0040) == c.c6
  {
  }

  lemma LowerBits(c: Crc)
    ensures HasWordBit(ToWord(c), 0x0020) == c.c5
    ensures HasWordBit(ToWord(c), 0x0010) == c.c4
    ensures HasWordBit(ToWord(c), 0x0008) == c.c3
  {
  }

  lemma BottomBits(c: Crc)
    ensures HasWordBit(ToWord(c), 0x0004) == c.c2
    ensures HasWordBit(ToWord(c), 0x0002) == c.c1
    ensures HasWordBit(ToWord(c), 0x0001) == c.c0
  {
  }

  lemma WordOfWord(c: Crc)
    ensures FromWord(ToWord(c)) == c
  {
    hide ToWord, HasWordBit;
    TopBits(c);
    UpperBits(c);
    MiddleBits(c);
    LowerBits(c);
    BottomBits(c);
  }

  lemma ShiftedBack(w: bv16, high: bv8, low: bv8)
    requires w & 0x8000 == 0 && w << 1 == Word(high, low)
    ensures w == Word(high, low) >> 1 && !HasBit(low, 0x01)
  {
  }

  lemma TopBitClear(c: Crc)
    ensures ToWord(c) & 0x8000 == 0
  {
  }

  lemma WordBits(high: bv8, low: bv8)
    ensures FromWord(Word(high, low) >> 1)
         == Crc(HasBit(high, 0x80), HasBit(high, 0x40), HasBit(high, 0x20), HasBit(high, 0x10),
                HasBit(high, 0x08), HasBit(high, 0x04), HasBit(high, 0x02), HasBit(high, 0x01),
                HasBit(low, 0x80), HasBit(low, 0x40), HasBit(low, 0x20), HasBit(low, 0x10),
                HasBit(low, 0x08), HasBit(low, 0x04), HasBit(low, 0x02))
  {
  }

  lemma Coefficients(c: Crc, high: bv8, low: bv8)
    requires ToWord(c) << 1 == Word(high, low)
    ensures c == FromWord(Word(high, low) >> 1) && !HasBit(low, 0x01)
  {
    hide ToWord, FromWord, HasBit, Word;
    TopBitClear(c);
    ShiftedBack(ToWord(c), high, low);
    WordOfWord(c);
  }

  lemma CheckCoefficients(c: Crc, high: bv8, low: bv8)
    requires ToWord(c) << 1 == Word(high, low)
    ensures c == Crc(HasBit(high, 0x80), HasBit(high, 0x40), HasBit(high, 0x20), HasBit(high, 0x10),
                     HasBit(high, 0x08), HasBit(high, 0x04), HasBit(high, 0x02), HasBit(high, 0x01),
                     HasBit(low, 0x80), HasBit(low, 0x40), HasBit(low, 0x20), HasBit(low, 0x10),
                     HasBit(low, 0x08), HasBit(low, 0x04), HasBit(low, 0x02))
    ensures !HasBit(low, 0x01)
  {
    hide ToWord, FromWord, Word, HasBit;
    Coefficients(c, high, low);
    WordBits(high, low);
  }

  /** The two check bytes on the bus: 15 bits of CRC and a closing zero. */
  lemma CheckBits(c: Crc, high: bv8, low: bv8)
    requires ToWord(c) << 1 == Word(high, low)
    ensures ByteBits(high) + ByteBits(low) == CrcBits(c) + [false]
  {
    CheckCoefficients(c, high, low);
    assert !HasBit(low, Mask(7));
    hide ToWord, Word, Coef, HasBit, Mask;
    forall i | 0 <= i < 15
      ensures Coef(c, i) == if i < 8 then HasBit(high, Mask(i)) else HasBit(low, Mask(i - 8))
    {
      CoefInBytes(c, high, low, i);
    }
  }

  lemma CoefInBytes(c: Crc, high: bv8, low: bv8, i: nat)
    requires i < 15
    requires c == Crc(HasBit(high, 0x80), HasBit(high, 0x40), HasBit(high, 0x20), HasBit(high, 0x10),
                      HasBit(high, 0x08), HasBit(high, 0x04), HasBit(high, 0x02), HasBit(high, 0x01),
                      HasBit(low, 0x80), HasBit(low, 0x40), HasBit(low, 0x20), HasBit(low, 0x10),
                      HasBit(low, 0x08), HasBit(low, 0x04), HasBit(low, 0x02))
    ensures Coef(c, i) == if i < 8 then HasBit(high, Mask(i)) else HasBit(low, Mask(i - 8))
  {
    hide HasBit;
  }

  function Inverted(bits: seq<bool>): (r: seq<bool>)
    ensures |r| == |bits|
  {
    seq(|bits|, i requires 0 <= i < |bits| => !bits[i])
  }

  /** The string that divides to zero when the message is accepted: the data
      bits and the check sequence without its closing bit, inverted back. */
  function Dividend(bits: seq<bool>): (r: seq<bool>)
    requires |bits| >= 16
    ensures |r| == |bits| - 1
  {
    bits[..|bits| - 16] + Inverted(bits[|bits| - 16..|bits| - 1])
  }

  function Zeros(n: nat): (r: seq<bool>)
    ensures |r| == n
  {
    seq(n, _ => false)
  }

  lemma SetMoves(c: Crc, i: nat)
    requires i < 14 && Coef(c, i + 1)
    ensures Coef(BitStep(c, c.c14), i)
  {
  }

  lemma ClearMoves(c: Crc, i: nat)
    requires i < 14 && !Coef(c, i + 1)
    ensures !Coef(BitStep(c, c.c14), i)
  {
  }

  lemma CoefShift(c: Crc, i: nat)
    requires i < 15
    ensures Coef(BitStep(c, c.c14), i) == if i < 14 then Coef(c, i + 1) else false
  {
    assert !Coef(BitStep(c, c.c14), 14);
    hide Coef, BitStep;
    if i < 14 {
      if Coef(c, i + 1) {
        SetMoves(c, i);
      } else {
        ClearMoves(c, i);
      }
    }
  }

  lemma FirstCoef(c: Crc)
    ensures Coef(c, 0) == c.c14
  {
  }

  lemma ShiftIn(c: Crc)
    ensures CrcBits(c)[0] == c.c14
    ensures CrcBits(BitStep(c, c.c14)) == CrcBits(c)[1..] + [false]
  {
    hide Coef, BitStep;
    FirstCoef(c);
    forall i | 0 <= i < 15 ensures Coef(BitStep(c, c.c14), i) == if i < 14 then Coef(c, i + 1) else false {
      CoefShift(c, i);
    }
  }

  lemma {:induction false} OwnBitsShift(c: Crc, k: nat)
    requires k <= 15
    ensures CrcBits(Divide(c, CrcBits(c)[..k])) == CrcBits(c)[k..] + Zeros(k)
  {
    hide BitStep, CrcBits;
    if k > 0 {
      OwnBitsShift(c, k - 1);
      var bits, r := CrcBits(c), Divide(c, CrcBits(c)[..k - 1]);
      assert bits[..k][..k - 1] == bits[..k - 1];
      ShiftIn(r);
      assert CrcBits(r)[0] == bits[k - 1];
    } else {
      assert CrcBits(c)[..0] == [];
    }
  }

  /** A remainder divided by its own bits leaves nothing. */
  lemma OwnBitsCancel(c: Crc)
    ensures Divide(c, CrcBits(c)) == ZERO
  {
    OwnBitsShift(c, 15);
    assert CrcBits(c)[..15] == CrcBits(c);
    var r := CrcBits(Divide(c, CrcBits(c)));
    assert forall i | 0 <= i < 15 :: !r[i];
    hide Divide;
    assert r[0] == r[1] == r[2] == r[3] == r[4] == r[5] == r[6] == r[7];
    assert r[8] == r[9] == r[10] == r[11] == r[12] == r[13] == r[14];
  }

  // ---- The step is injective ----

  lemma StepInjective(x: Crc, y: Crc, bit: bool)
    requires BitStep(x, bit) == BitStep(y, bit)
    ensures x == y
  {
  }

  lemma {:induction false} SuffixInjective(x: Crc, y: Crc, bits: seq<bool>)
    requires Divide(x, bits) == Divide(y, bits)
    ensures x == y
  {
    if bits != [] {
      var n := |bits| - 1;
      StepInjective(Divide(x, bits[..n]), Divide(y, bits[..n]), bits[n]);
      SuffixInjective(x, y, bits[..n]);
    }
  }

  /** The n lowest coefficients agree. */
  predicate AgreeLow(x: Crc, y: Crc, n: nat) {
    && (n >= 1 ==> x.c0 == y.c0) && (n >= 2 ==> x.c1 == y.c1) && (n >= 3 ==> x.c2 == y.c2)
    && (n >= 4 ==> x.c3 == y.c3) && (n >= 5 ==> x.c4 == y.c4) && (n >= 6 ==> x.c5 == y.c5)
    && (n >= 7 ==> x.c6 == y.c6) && (n >= 8 ==> x.c7 == y.c7) && (n >= 9 ==> x.c8 == y.c8)
    && (n >= 10 ==> x.c9 == y.c9) && (n >= 11 ==> x.c10 == y.c10) && (n >= 12 ==> x.c11 == y.c11)
    && (n >= 13 ==> x.c12 == y.c12) && (n >= 14 ==> x.c13 == y.c13) && (n >= 15 ==> x.c14 == y.c14)
  }

  lemma StepBack(x: Crc, y: Crc, p: bool, q: bool, n: nat)
    requires 1 <= n <= 15 && AgreeLow(BitStep(x, p), BitStep(y, q), n)
    ensures AgreeLow(x, y, n - 1)
    ensures x == y ==> p == q
  {
  }

  lemma {:induction false} Back(x: Crc, y: Crc, us: seq<bool>, vs: seq<bool>, n: nat)
    requires |us| == |vs| <= n <= 15 && AgreeLow(Divide(x, us), Divide(y, vs), n)
    ensures AgreeLow(x, y, n - |us|)
  {
    hide AgreeLow, BitStep;
    if us != [] {
      var k := |us| - 1;
      StepBack(Divide(x, us[..k]), Divide(y, vs[..k]), us[k], vs[k], n);
      Back(x, y, us[..k], vs[..k], n - 1);
    }
  }

  /** Up to 15 bits can be read back from the remainders before and after them. */
  lemma {:induction false} WindowDetermined(c: Crc, us: seq<bool>, vs: seq<bool>)
    requires |us| == |vs| <= 15 && Divide(c, us) == Divide(c, vs)
    ensures us == vs
    decreases |us|
  {
    hide BitStep, AgreeLow, Divide;
    if us != [] {
      DivideFirst(c, us);
      DivideFirst(c, vs);
      var x, y := BitStep(c, us[0]), BitStep(c, vs[0]);
      AgreeAll(Divide(x, us[1..]), 15);
      Back(x, y, us[1..], vs[1..], 15);
      FirstBit(c, us[0], vs[0], 16 - |us|);
      WindowDetermined(x, us[1..], vs[1..]);
      assert us == [us[0]] + us[1..];
    }
  }

  lemma AgreeAll(x: Crc, n: nat)
    ensures AgreeLow(x, x, n)
  {
  }

  lemma FirstBit(c: Crc, p: bool, q: bool, n: nat)
    requires n >= 1 && AgreeLow(BitStep(c, p), BitStep(c, q), n)
    ensures p == q
  {
  }

  // ---- Messages accepted on both sides ----

  lemma AcceptedDividesToZero(message: seq<bv8>)
    requires CrcOk(message)
    ensures Divide(ALL_ONES, Dividend(Protected(message))) == ZERO
    ensures !Protected(message)[|Protected(message)| - 1]
  {
    hide Divide, ToWord, Xor, Word, ByteBits;
    var n := |message|;
    var offset := if message[0] == SOF then 1 else 0;
    var data := message[offset..n - 2];
    var r := Divide(ALL_ONES, Bits(data));
    assert message[offset..] == data + [message[n - 2], message[n - 1]];
    BitsAppend(data, [message[n - 2], message[n - 1]]);
    BitsOfTwo(message[n - 2], message[n - 1]);
    CheckBits(Xor(r, ALL_ONES), message[n - 2], message[n - 1]);
    InvertedCheck(Bits(data), r);
    DivideAppend(ALL_ONES, Bits(data), CrcBits(r));
    OwnBitsCancel(r);
  }

  lemma SetCleared(r: Crc, i: nat)
    requires i < 15 && Coef(r, i)
    ensures !Coef(Xor(r, ALL_ONES), i)
  {
  }

  lemma ClearSet(r: Crc, i: nat)
    requires i < 15 && !Coef(r, i)
    ensures Coef(Xor(r, ALL_ONES), i)
  {
  }

  lemma CoefInverted(r: Crc, i: nat)
    requires i < 15
    ensures Coef(Xor(r, ALL_ONES), i) == !Coef(r, i)
  {
    hide Coef;
    if Coef(r, i) {
      SetCleared(r, i);
    } else {
      ClearSet(r, i);
    }
  }

  lemma InvertedCheck(bits: seq<bool>, r: Crc)
    ensures Dividend(bits + (CrcBits(Xor(r, ALL_ONES)) + [false])) == bits + CrcBits(r)
  {
    hide Xor, Coef, Dividend;
    forall i | 0 <= i < 15 ensures Coef(Xor(r, ALL_ONES), i) == !Coef(r, i) {
      CoefInverted(r, i);
    }
    assert Inverted(CrcBits(Xor(r, ALL_ONES))) == CrcBits(r);
    DividendSplit(bits, CrcBits(Xor(r, ALL_ONES)));
  }

  lemma DividendSplit(bits: seq<bool>, check: seq<bool>)
    requires |check| == 15
    ensures Dividend(bits + (check + [false])) == bits + Inverted(check)
  {
    hide Inverted;
    var all := bits + (check + [false]);
    assert all[..|all| - 16] == bits && all[|all| - 16..|all| - 1] == check;
  }

  lemma BitsOfTwo(high: bv8, low: bv8)
    ensures Bits([high, low]) == ByteBits(high) + ByteBits(low)
  {
    hide ByteBits;
    BitsAppend([high], [low]);
    assert Bits([high]) == ByteBits(high) && Bits([low]) == ByteBits(low) by {
      assert [high][..0] == [] && [low][..0] == [];
    }
    assert [high] + [low] == [high, low];
  }

  lemma DividendAt(x: seq<bool>, i: nat)
    requires |x| >= 16 && i < |x| - 1
    ensures Dividend(x)[i] == if i < |x| - 16 then x[i] else !x[i]
  {
  }

  lemma DividendOutside(x: seq<bool>, y: seq<bool>, from: nat)
    requires SameOutside(x, y, from) && |x| >= 16
    ensures SameOutside(Dividend(x), Dividend(y), from)
    ensures Dividend(x) == Dividend(y) && x[|x| - 1] == y[|x| - 1] ==> x == y
  {
    hide Dividend;
    forall i | 0 <= i < |x| - 1 ensures Dividend(x)[i] == Dividend(y)[i] <==> x[i] == y[i] {
      DividendAt(x, i);
      DividendAt(y, i);
    }
  }

  lemma DivideThree(a: seq<bool>, w: seq<bool>, b: seq<bool>)
    ensures Divide(ALL_ONES, a + w + b) == Divide(Divide(Divide(ALL_ONES, a), w), b)
  {
    DivideAppend(ALL_ONES, a, w);
    DivideAppend(ALL_ONES, a + w, b);
  }

  /** Two strings with the same remainder cannot differ only inside a window of 15 bits. */
  lemma WindowUnchanged(x: seq<bool>, y: seq<bool>, from: nat)
    requires SameOutside(x, y, from)
    requires Divide(ALL_ONES, x) == Divide(ALL_ONES, y)
    ensures x == y
  {
    hide Divide;
    if from < |x| {
      var to := if from + 15 < |x| then from + 15 else |x|;
      var a, u, v, b := x[..from], x[from..to], y[from..to], x[to..];
      assert x == a + u + b && y == a + v + b;
      DivideThree(a, u, b);
      DivideThree(a, v, b);
      var c := Divide(ALL_ONES, a);
      SuffixInjective(Divide(c, u), Divide(c, v), b);
      WindowDetermined(c, u, v);
    }
  }

  lemma ByteBitsInjective(a: bv8, b: bv8)
    requires ByteBits(a) == ByteBits(b)
    ensures a == b
  {
    assert forall i | 0 <= i < 8 :: HasBit(a, Mask(i)) == ByteBits(a)[i] == ByteBits(b)[i] == HasBit(b, Mask(i));
    assert HasBit(a, Mask(0)) == HasBit(b, Mask(0)) && HasBit(a, Mask(1)) == HasBit(b, Mask(1));
    assert HasBit(a, Mask(2)) == HasBit(b, Mask(2)) && HasBit(a, Mask(3)) == HasBit(b, Mask(3));
    assert HasBit(a, Mask(4)) == HasBit(b, Mask(4)) && HasBit(a, Mask(5)) == HasBit(b, Mask(5));
    assert HasBit(a, Mask(6)) == HasBit(b, Mask(6)) && HasBit(a, Mask(7)) == HasBit(b, Mask(7));
  }

  lemma {:induction false} BitsInjective(a: seq<bv8>, b: seq<bv8>)
    requires Bits(a) == Bits(b)
    ensures a == b
  {
    hide ByteBits;
    if a != [] {
      var n := |a| - 1;
      assert |Bits(a)| == 8 * |a| && |Bits(b)| == 8 * |b|;
      assert Bits(a[..n]) == Bits(a)[..8 * n] == Bits(b)[..8 * n] == Bits(b[..n]);
      assert ByteBits(a[n]) == Bits(a)[8 * n..] == Bits(b)[8 * n..] == ByteBits(b[n]);
      BitsInjective(a[..n], b[..n]);
      ByteBitsInjective(a[n], b[n]);
      assert a == a[..n] + [a[n]] && b == b[..n] + [b[n]];
    }
  }

  lemma AcceptedAlike(x: seq<bv8>, y: seq<bv8>, from: nat)
    requires CrcOk(x) && CrcOk(y)
    requires |x| == |y| && (x[0] == SOF <==> y[0] == SOF)
    requires SameOutside(Protected(x), Protected(y), from)
    ensures x == y
  {
    AcceptedDividesToZero(x);
    AcceptedDividesToZero(y);
    hide Divide, CrcOk, Dividend, SameOutside, Bits;
    DividendOutside(Protected(x), Protected(y), from);
    WindowUnchanged(Dividend(Protected(x)), Dividend(Protected(y)), from);
    var offset := if x[0] == SOF then 1 else 0;
    BitsInjective(x[offset..], y[offset..]);
    assert x == x[..offset] + x[offset..] && y == y[..offset] + y[offset..];
  }

  // ---- A start byte that appears or disappears ----

  /** The first bit in which a byte differs from the start byte. */
  lemma FirstDifference(b: bv8) returns (f: nat)
    requires b != SOF
    ensures f < 8 && HasBit(b, Mask(f)) != HasBit(SOF, Mask(f))
    ensures forall j | 0 <= j < f :: HasBit(b, Mask(j)) == HasBit(SOF, Mask(j))
  {
    hide HasBit, Mask;
    f := 0;
    while f < 8 && HasBit(b, Mask(f)) == HasBit(SOF, Mask(f))
      invariant f <= 8 && forall j | 0 <= j < f :: HasBit(b, Mask(j)) == HasBit(SOF, Mask(j))
    {
      f := f + 1;
    }
    if f == 8 {
      SameBits(b, SOF);
    }
  }

  lemma SameBits(a: bv8, b: bv8)
    requires forall j | 0 <= j < 8 :: HasBit(a, Mask(j)) == HasBit(b, Mask(j))
    ensures a == b
  {
    hide HasBit, Mask;
    assert ByteBits(a) == ByteBits(b);
    ByteBitsInjective(a, b);
  }

  /** The register after one byte other than the start byte, as a word. */
  function AfterByte(b: bv8): bv16 {
    Add(Shifted(0x7FFF), Table(AddByte(TopByte(0x7FFF), b)))
  }

  lemma AfterByteIsStep(b: bv8)
    ensures FromWord(AfterByte(b)) == ByteStep(ALL_ONES, b)
  {
    assert FromWord(0x7FFF) == ALL_ONES;
    hide FromWord, ByteStep, Table, Add, AddByte, TopByte, Shifted;
    TableStepIsByteStep(0x7FFF, b);
  }

  lemma AfterByteLow(b: bv8)
    ensures AfterByte(b) & 0xFF == Spread(b ^ 0xFF) & 0xFF
  {
    var i := b ^ 0xFF;
    TableIsSpread(i);
    assert AddByte(TopByte(0x7FFF), b) == i;
    hide Table, Spread;
    assert (0xFF00 ^ Table(i)) & 0xFF == (Table(i) & 0x7FFF) & 0xFF;
  }

  /** A byte that first differs from the start byte in bit f leaves a register
      whose lowest 8 - f bits are not all set. */
  lemma NeverAllOnes(b: bv8)
    ensures b & 0x80 == 0x80 ==> Spread(b ^ 0xFF) & 0xFF != 0xFF
    ensures b & 0xC0 == 0x40 ==> Spread(b ^ 0xFF) & 0x7F != 0x7F
    ensures b & 0xE0 == 0x20 ==> Spread(b ^ 0xFF) & 0x3F != 0x3F
    ensures b & 0xF0 == 0x10 ==> Spread(b ^ 0xFF) & 0x1F != 0x1F
    ensures b & 0xF8 == 0x00 ==> Spread(b ^ 0xFF) & 0x0F != 0x0F
    ensures b & 0xFC == 0x08 ==> Spread(b ^ 0xFF) & 0x07 != 0x07
    ensures b & 0xFE == 0x0C ==> Spread(b ^ 0xFF) & 0x03 != 0x03
    ensures b & 0xFF == 0x0F ==> Spread(b ^ 0xFF) & 0x01 != 0x01
  {
  }

  lemma LowOnesLong(w: bv16)
    ensures AgreeLow(FromWord(w), ALL_ONES, 8) ==> w & 0xFF == 0xFF
    ensures AgreeLow(FromWord(w), ALL_ONES, 7) ==> w & 0x7F == 0x7F
    ensures AgreeLow(FromWord(w), ALL_ONES, 6) ==> w & 0x3F == 0x3F
    ensures AgreeLow(FromWord(w), ALL_ONES, 5) ==> w & 0x1F == 0x1F
  {
  }

  lemma LowOnesShort(w: bv16)
    ensures AgreeLow(FromWord(w), ALL_ONES, 4) ==> w & 0x0F == 0x0F
    ensures AgreeLow(FromWord(w), ALL_ONES, 3) ==> w & 0x07 == 0x07
    ensures AgreeLow(FromWord(w), ALL_ONES, 2) ==> w & 0x03 == 0x03
    ensures AgreeLow(FromWord(w), ALL_ONES, 1) ==> w & 0x01 == 0x01
  {
  }

  lemma DifferenceMask(b: bv8, f: nat)
    requires f < 8 && HasBit(b, Mask(f)) != HasBit(SOF, Mask(f))
    requires forall j | 0 <= j < f :: HasBit(b, Mask(j)) == HasBit(SOF, Mask(j))
    ensures f == 0 ==> b & 0x80 == 0x80
    ensures f == 1 ==> b & 0xC0 == 0x40
    ensures f == 2 ==> b & 0xE0 == 0x20
    ensures f == 3 ==> b & 0xF0 == 0x10
    ensures f == 4 ==> b & 0xF8 == 0x00
    ensures f == 5 ==> b & 0xFC == 0x08
    ensures f == 6 ==> b & 0xFE == 0x0C
    ensures f == 7 ==> b & 0xFF == 0x0F
  {
    assert 0 < f ==> HasBit(b, Mask(0)) == HasBit(SOF, Mask(0));
    assert 1 < f ==> HasBit(b, Mask(1)) == HasBit(SOF, Mask(1));
    assert 2 < f ==> HasBit(b, Mask(2)) == HasBit(SOF, Mask(2));
    assert 3 < f ==> HasBit(b, Mask(3)) == HasBit(SOF, Mask(3));
    assert 4 < f ==> HasBit(b, Mask(4)) == HasBit(SOF, Mask(4));
    assert 5 < f ==> HasBit(b, Mask(5)) == HasBit(SOF, Mask(5));
    assert 6 < f ==> HasBit(b, Mask(6)) == HasBit(SOF, Mask(6));
  }

  lemma RegisterTellsStart(b: bv8, f: nat)
    requires f < 8 && HasBit(b, Mask(f)) != HasBit(SOF, Mask(f))
    requires forall j | 0 <= j < f :: HasBit(b, Mask(j)) == HasBit(SOF, Mask(j))
    ensures !AgreeLow(ByteStep(ALL_ONES, b), ALL_ONES, 8 - f)
  {
    DifferenceMask(b, f);
    NeverAllOnes(b);
    AfterByteLow(b);
    AfterByteIsStep(b);
    hide HasBit, Mask, AgreeLow, FromWord, ByteStep, Spread, AfterByte;
    LowOnesLong(AfterByte(b));
    LowOnesShort(AfterByte(b));
  }

  lemma FirstByteSplit(m: seq<bv8>)
    requires m != []
    ensures Bits(m) == ByteBits(m[0]) + Bits(m[1..])
  {
    hide ByteBits;
    assert m == [m[0]] + m[1..];
    BitsAppend([m[0]], m[1..]);
    assert [m[0]][..0] == [];
  }

  lemma DividendTail(front: seq<bool>, tail: seq<bool>)
    requires |tail| >= 16
    ensures Dividend(front + tail) == front + Dividend(tail)
  {
    var n := |tail|;
    assert (front + tail)[..|front| + n - 16] == front + tail[..n - 16];
    assert (front + tail)[|front| + n - 16..|front| + n - 1] == tail[n - 16..n - 1];
  }

  /** With the register before them known to differ, up to 14 bits cannot hide it. */
  lemma TailsDiffer(c: Crc, x: seq<bool>, y: seq<bool>, n: nat)
    requires |x| == |y| && n <= |x| && n <= 15 && x[n..] == y[n..]
    requires Divide(c, x) == Divide(ALL_ONES, y)
    ensures AgreeLow(c, ALL_ONES, 15 - n)
  {
    hide Divide, AgreeLow;
    assert x == x[..n] + x[n..] && y == y[..n] + y[n..];
    DivideAppend(c, x[..n], x[n..]);
    DivideAppend(ALL_ONES, y[..n], y[n..]);
    SuffixInjective(Divide(c, x[..n]), Divide(ALL_ONES, y[..n]), x[n..]);
    AgreeAll(Divide(c, x[..n]), 15);
    Back(c, ALL_ONES, x[..n], y[..n], 15);
  }

  /** A difference in bit f of the first eight bits puts all others before bit f + 15. */
  lemma SplitOutside(u: seq<bool>, v: seq<bool>, s: seq<bool>, t: seq<bool>, from: nat, f: nat)
    requires |u| == |v| == 8 && |s| == |t| && SameOutside(u + s, v + t, from)
    requires f < 8 && u[f] != v[f]
    ensures forall i | f + 7 <= i < |s| :: s[i] == t[i]
  {
    assert (u + s)[f] == u[f] && (v + t)[f] == v[f];
    forall i | f + 7 <= i < |s| ensures s[i] == t[i] {
      assert (u + s)[8 + i] == s[i] && (v + t)[8 + i] == t[i];
    }
  }

  lemma SameStart(u: seq<bool>, s: seq<bool>, t: seq<bool>, from: nat)
    requires |u| == 8 && |s| == |t| && SameOutside(u + s, u + t, from)
    ensures SameOutside(s, t, if from >= 8 then from - 8 else 0)
  {
    forall i | 0 <= i < |s| && !(from <= 8 + i < from + 15) ensures s[i] == t[i] {
      assert (u + s)[8 + i] == s[i] && (u + t)[8 + i] == t[i];
    }
  }

  lemma TailsOutside(x: seq<bv8>, y: seq<bv8>, from: nat, f: nat)
    requires |x| == |y| >= 3 && SameOutside(Bits(x), Bits(y), from)
    requires f < 8 && HasBit(x[0], Mask(f)) != HasBit(y[0], Mask(f))
    ensures var s, t := Bits(x[1..]), Bits(y[1..]);
            |s| == |t| && forall i | f + 7 <= i < |s| :: s[i] == t[i]
  {
    hide HasBit, Mask, Bits, SameOutside;
    FirstByteSplit(x);
    FirstByteSplit(y);
    SplitOutside(ByteBits(x[0]), ByteBits(y[0]), Bits(x[1..]), Bits(y[1..]), from, f);
  }

  lemma DividendsAgree(s: seq<bool>, t: seq<bool>, n: nat)
    requires |s| == |t| >= 16 && n <= |s| - 1 && forall i | n <= i < |s| :: s[i] == t[i]
    ensures Dividend(s)[n..] == Dividend(t)[n..]
  {
    hide Dividend;
    forall i | n <= i < |s| - 1 ensures Dividend(s)[i] == Dividend(t)[i] {
      DividendAt(s, i);
      DividendAt(t, i);
    }
  }

  lemma WholeMessageDivides(x: seq<bv8>)
    requires CrcOk(x) && x[0] != SOF
    ensures |Bits(x[1..])| >= 16
    ensures Divide(ByteStep(ALL_ONES, x[0]), Dividend(Bits(x[1..]))) == ZERO
  {
    AcceptedDividesToZero(x);
    assert x[0..] == x;
    FirstByteSplit(x);
    hide Divide, Dividend, CrcOk;
    DividendTail(ByteBits(x[0]), Bits(x[1..]));
    DivideAppend(ALL_ONES, ByteBits(x[0]), Dividend(Bits(x[1..])));
  }

  lemma RegistersCannotMeet(c: Crc, s: seq<bool>, t: seq<bool>, f: nat)
    requires |s| == |t| >= 16 && f < 8 && forall i | f + 7 <= i < |s| :: s[i] == t[i]
    requires !AgreeLow(c, ALL_ONES, 8 - f)
    ensures Divide(c, Dividend(s)) != Divide(ALL_ONES, Dividend(t))
  {
    hide Divide, Dividend, AgreeLow;
    DividendsAgree(s, t, f + 7);
    if Divide(c, Dividend(s)) == Divide(ALL_ONES, Dividend(t)) {
      TailsDiffer(c, Dividend(s), Dividend(t), f + 7);
    }
  }

  /** A start byte neither appears nor disappears by a corruption within 15 bits. */
  lemma StartNotForged(x: seq<bv8>, y: seq<bv8>, from: nat)
    requires CrcOk(x) && |x| == |y| && x[0] != SOF && y[0] == SOF && SameOutside(Bits(x), Bits(y), from)
    ensures !CrcOk(y)
  {
    hide Divide, Dividend, SameOutside, HasBit, Mask, ByteStep, AgreeLow, Bits, Fcs, Word;
    var f := FirstDifference(x[0]);
    WholeMessageDivides(x);
    TailsOutside(x, y, from, f);
    RegisterTellsStart(x[0], f);
    RegistersCannotMeet(ByteStep(ALL_ONES, x[0]), Bits(x[1..]), Bits(y[1..]), f);
    if CrcOk(y) {
      AcceptedDividesToZero(y);
    }
  }

  // ---- The theorem ----

  lemma ProtectedOutside(x: seq<bv8>, y: seq<bv8>, from: nat)
    requires |x| == |y| >= 3 && (x[0] == SOF <==> y[0] == SOF) && SameOutside(Bits(x), Bits(y), from)
    ensures SameOutside(Protected(x), Protected(y), if x[0] != SOF then from else if from >= 8 then from - 8 else 0)
  {
    hide Bits, ByteBits, SameOutside;
    assert x[0..] == x && y[0..] == y;
    if x[0] == SOF {
      FirstByteSplit(x);
      FirstByteSplit(y);
      SameStart(ByteBits(SOF), Bits(x[1..]), Bits(y[1..]), from);
    }
  }

  /** No corruption of an accepted message within 15 consecutive bits is accepted,
      anywhere in the message: start byte, data or check sequence. */
  lemma BurstRejected(message: seq<bv8>, corrupted: seq<bv8>, from: nat)
    requires CrcOk(message) && |corrupted| == |message| && corrupted != message
    requires SameOutside(Bits(message), Bits(corrupted), from)
    ensures !CrcOk(corrupted)
  {
    hide Protected, Bits;
    if CrcOk(corrupted) {
      if message[0] == SOF && corrupted[0] != SOF {
        SameOutsideSymmetric(message, corrupted, from);
        StartNotForged(corrupted, message, from);
      } else if message[0] != SOF && corrupted[0] == SOF {
        StartNotForged(message, corrupted, from);
      } else {
        ProtectedOutside(message, corrupted, from);
        AcceptedAlike(message, corrupted, if message[0] != SOF then from else if from >= 8 then from - 8 else 0);
      }
    }
  }

  lemma SameOutsideSymmetric(x: seq<bv8>, y: seq<bv8>, from: nat)
    requires SameOutside(Bits(x), Bits(y), from)
    ensures SameOutside(Bits(y), Bits(x), from)
  {
    hide Bits;
  }

  /** Neither is any change to the two check bytes alone, of all 16 bits. */
  lemma CheckBytesRejected(message: seq<bv8>, corrupted: seq<bv8>)
    requires CrcOk(message) && |corrupted| == |message|
    requires corrupted[..|message| - 2] == message[..|message| - 2] && corrupted != message
    ensures !CrcOk(corrupted)
  {
    var n := |message|;
    var offset := if message[0] == SOF then 1 else 0;
    assert corrupted[..n - 2][0] == message[..n - 2][0];
    assert corrupted[offset..n - 2] == corrupted[..n - 2][offset..];
    assert message[offset..n - 2] == message[..n - 2][offset..];
    WordInjective(message[n - 2], message[n - 1], corrupted[n - 2], corrupted[n - 1]);
    hide Fcs, Word;
    SameEnd(message, corrupted);
  }

  lemma SameEnd(x: seq<bv8>, y: seq<bv8>)
    requires |x| == |y| >= 2 && x[..|x| - 2] == y[..|x| - 2]
    ensures x[|x| - 2] == y[|x| - 2] && x[|x| - 1] == y[|x| - 1] ==> x == y
  {
    var n := |x|;
    assert x == x[..n - 2] + [x[n - 2], x[n - 1]] && y == y[..n - 2] + [y[n - 2], y[n - 1]];
  }

  lemma WordInjective(a: bv8, b: bv8, c: bv8, d: bv8)
    ensures Word(a, b) == Word(c, d) ==> a == c && b == d
  {
  }
}
