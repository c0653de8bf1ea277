/** When the receiver acknowledges, told by the slices on the bus alone, whatever
    they are: the slices of the identifier, of COM and of the end of data. */
module VanAcknowledge {
  import opened VanCrc
  import opened VanFrame
  import opened Wrappers

  // ---- The shift register keeps every slice apart ----

  function WordMask(k: nat): (m: bv16)
    requires k < 16
  {
    [0x0001, 0x0002, 0x0004, 0x0008, 0x0010, 0x0020, 0x0040, 0x0080,
     0x0100, 0x0200, 0x0400, 0x0800, 0x1000, 0x2000, 0x4000, 0x8000][k]
  }

  lemma ShiftsLow(w: bv16, bit: bool)
    ensures (Accumulate(w, bit) & 0x0001 != 0) == bit
    ensures (Accumulate(w, bit) & 0x0002 != 0) == (w & 0x0001 != 0)
    ensures (Accumulate(w, bit) & 0x0004 != 0) == (w & 0x0002 != 0)
    ensures (Accumulate(w, bit) & 0x0008 != 0) == (w & 0x0004 != 0)
    ensures (Accumulate(w, bit) & 0x0010 != 0) == (w & 0x0008 != 0)
    ensures (Accumulate(w, bit) & 0x0020 != 0) == (w & 0x0010 != 0)
  {
  }

  lemma ShiftsMiddle(w: bv16, bit: bool)
    ensures (Accumulate(w, bit) & 0x0040 != 0) == (w & 0x0020 != 0)
    ensures (Accumulate(w, bit) & 0x0080 != 0) == (w & 0x0040 != 0)
    ensures (Accumulate(w, bit) & 0x0100 != 0) == (w & 0x0080 != 0)
    ensures (Accumulate(w, bit) & 0x0200 != 0) == (w & 0x0100 != 0)
    ensures (Accumulate(w, bit) & 0x0400 != 0) == (w & 0x0200 != 0)
  {
  }

  lemma ShiftsHigh(w: bv16, bit: bool)
    ensures (Accumulate(w, bit) & 0x0800 != 0) == (w & 0x0400 != 0)
    ensures (Accumulate(w, bit) & 0x1000 != 0) == (w & 0x0800 != 0)
    ensures (Accumulate(w, bit) & 0x2000 != 0) == (w & 0x1000 != 0)
    ensures (Accumulate(w, bit) & 0x4000 != 0) == (w & 0x2000 != 0)
    ensures (Accumulate(w, bit) & 0x8000 != 0) == (w & 0x4000 != 0)
  {
  }

  predicate BitSet(w: bv16, k: nat)
    requires k < 16
  {
    w & WordMask(k) != 0
  }

  lemma Shifts(w: bv16, bit: bool, k: nat)
    requires k < 16
    ensures BitSet(Accumulate(w, bit), k) == if k == 0 then bit else BitSet(w, k - 1)
  {
    hide Accumulate;
    if k < 6 {
      ShiftsLow(w, bit);
    } else if k < 11 {
      ShiftsMiddle(w, bit);
    } else {
      ShiftsHigh(w, bit);
    }
  }

  /** Up to 16 samples are the low bits of the word, the last one lowest; the rest is zero. */
  lemma {:induction false} SampleBit(bits: seq<bool>, k: nat)
    requires |bits| <= 16 && k < 16
    ensures BitSet(Sample(bits), k) == (k < |bits| && bits[|bits| - 1 - k])
  {
    hide Accumulate, BitSet;
    if bits == [] {
      ZeroBit(k);
    } else {
      var front, last := bits[..|bits| - 1], bits[|bits| - 1];
      Shifts(Sample(front), last, k);
      if k > 0 {
        SampleBit(front, k - 1);
      }
    }
  }

  lemma ZeroBit(k: nat)
    requires k < 16
    ensures !BitSet(0, k)
  {
  }

  lemma SampleInjective(x: seq<bool>, y: seq<bool>)
    requires |x| == |y| == 15
    ensures Sample(x) == Sample(y) <==> x == y
    ensures Sample(x) != 0xFFFF
  {
    hide Sample, BitSet;
    SampleBit(x, 15);
    AllSet(15);
    if Sample(x) == Sample(y) {
      forall i | 0 <= i < 15 ensures x[i] == y[i] {
        SampleBit(x, 14 - i);
        SampleBit(y, 14 - i);
      }
    }
  }

  lemma AllSet(k: nat)
    requires k < 16
    ensures BitSet(0xFFFF, k)
  {
  }

  // ---- The identifier on the bus ----

  /** The identifier as it is sent: four bits and the opposite of the fourth, three times. */
  function IdentifierBits(identifier: bv16): (r: seq<bool>)
    ensures |r| == 15
  {
    Group(identifier, 0) + Group(identifier, 4) + Group(identifier, 8)
  }

  function Group(identifier: bv16, from: nat): (r: seq<bool>)
    requires from <= 8
    ensures |r| == 5
  {
    [BitOfIdentifier(identifier, from), BitOfIdentifier(identifier, from + 1), BitOfIdentifier(identifier, from + 2),
     BitOfIdentifier(identifier, from + 3), !BitOfIdentifier(identifier, from + 3)]
  }

  lemma SliceOfIdentifier(identifier: bv16, i: nat)
    requires i < 15
    ensures IdentifierBits(identifier)[i] ==
              if i % 5 == 4 then !BitOfIdentifier(identifier, i / 5 * 4 + 3)
              else BitOfIdentifier(identifier, i / 5 * 4 + i % 5)
  {
    hide BitOfIdentifier;
  }

  lemma HighBit(identifier: bv16, i: nat)
    requires i < 10
    ensures IdentifierBits(identifier)[i] == Expanded(IdHigh(identifier), i)
  {
    var j := i / 5 * 4 + if i % 5 == 4 then 3 else i % 5;
    hide BitOfIdentifier, BitOfByte, IdHigh, HasBit, IdentifierBits;
    SliceOfIdentifier(identifier, i);
    HighIdentifierBit(identifier, j);
    HasBitOfByte(IdHigh(identifier), j);
  }

  lemma LowBit(identifier: bv16, i: nat)
    requires i < 5
    ensures IdentifierBits(identifier)[10 + i] == Expanded(IdLowAndCom(identifier, 0), i)
  {
    var j := if i == 4 then 3 else i;
    hide BitOfIdentifier, BitOfByte, IdLowAndCom, HasBit, IdentifierBits;
    SliceOfIdentifier(identifier, 10 + i);
    LowIdentifierBit(identifier, 0, j);
    HasBitOfByte(IdLowAndCom(identifier, 0), j);
  }

  lemma SampledAckWord(identifier: bv16)
    ensures Sample(IdentifierBits(identifier)) == AckWord(identifier)
  {
    var bits, high, low := IdentifierBits(identifier), IdHigh(identifier), IdLowAndCom(identifier, 0);
    assert AckWord(identifier) == IdentifierWord(high, low) by {
      assert (identifier & 0x0F) as bv8 << 4 == low;
    }
    hide Sample, Expanded, IdHigh, IdLowAndCom, IdentifierWord, IdentifierBits, AckWord;
    forall i | 0 <= i < 15 ensures bits[i] == if i < 10 then Expanded(high, i) else Expanded(low, i - 10) {
      if i < 10 {
        HighBit(identifier, i);
      } else {
        LowBit(identifier, i - 10);
      }
    }
    SampleFifteen(bits, high, low, 5);
    JoinedIdentifier(high, low);
    assert bits[..15] == bits;
  }

  // ---- The end of data on the bus ----

  /** The end of data is group n behind COM: the first whose last two slices are equal. */
  predicate DataEndsAt(slices: seq<bool>, n: nat) {
    && n >= 1 && 30 + 5 * n <= |slices|
    && slices[30 + 5 * n - 2] == slices[30 + 5 * n - 1]
    && forall g | 1 <= g < n :: slices[30 + 5 * g - 2] != slices[30 + 5 * g - 1]
  }

  lemma {:induction false} EodGroupExactly(slices: seq<bool>, k: nat)
    requires |slices| >= 30 && forall g | 1 <= g <= k && 30 + 5 * g <= |slices| ::
               slices[30 + 5 * g - 2] != slices[30 + 5 * g - 1]
    ensures match EodGroup(slices, 30, k)
            case None => forall n: nat :: !DataEndsAt(slices, n)
            case Some(e) => DataEndsAt(slices, e + 1)
    decreases |slices| - 5 * k
  {
    if 30 + 5 * k + 5 <= |slices| && slices[30 + 5 * k + 3] != slices[30 + 5 * k + 4] {
      EodGroupExactly(slices, k + 1);
    }
  }

  /** The receiver drives the acknowledge slot exactly if acknowledging is enabled,
      the identifier on the bus is the one it is set up for, COM is 11001, and the
      first group behind COM that ends in two equal slices is an even one, from 4
      to 60, and ends in two dominant ones. */
  lemma AcknowledgesExactly(slices: seq<bool>, own: bv16, enabled: bool)
    ensures Acknowledges(if enabled then AckWord(own) else 0xFFFF, slices) <==>
              && enabled && |slices| >= 30 && slices[10..25] == IdentifierBits(own)
              && slices[25..30] == [true, true, false, false, true]
              && exists n: nat :: DataEndsAt(slices, n) && n % 2 == 0 && 4 <= n <= 60 && !slices[30 + 5 * n - 1]
  {
    hide Sample, AckWord, IdentifierBits, DataEndsAt, EodGroup;
    if |slices| >= 30 {
      SampleInjective(slices[10..25], IdentifierBits(own));
      SampledAckWord(own);
      EodExactly(slices);
    }
  }

  lemma EodExactly(slices: seq<bool>)
    requires |slices| >= 30
    ensures EodLegal(slices) <==>
              exists n: nat :: DataEndsAt(slices, n) && n % 2 == 0 && 4 <= n <= 60 && !slices[30 + 5 * n - 1]
  {
    EodGroupExactly(slices, 0);
    hide EodGroup;
    forall m: nat, n: nat | DataEndsAt(slices, m) && DataEndsAt(slices, n) ensures m == n {
      OneEnd(slices, m, n);
    }
  }

  lemma OneEnd(slices: seq<bool>, m: nat, n: nat)
    requires DataEndsAt(slices, m) && DataEndsAt(slices, n)
    ensures m == n
  {
    assert !(m < n) && !(n < m);
  }
}
