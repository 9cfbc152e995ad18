/** The bytes of a block in plain numbers: what its first byte says, and blocks written out
    byte by byte, one for each channel mode. */
module BlockBytes {
  import opened BitOps
  import opened Bytes
  import opened Leb128
  import opened BitPacking
  import opened BlockFormat
  import opened BlockRoundTrip
  import opened BlockPlanning
  import opened BlockedPostings

  // Sizes

  /** Bytes of a value in groups of seven bits. */
  function Size(v: nat): nat {
    if v < 0x80 then 1 else if v < 0x4000 then 2 else if v < 0x20_0000 then 3 else if v < 0x1000_0000 then 4 else 5
  }

  function Sizes(values: seq<nat>): nat {
    if values == [] then 0 else Size(values[0]) + Sizes(values[1..])
  }

  /** The values of at least `2^width`, each with a byte for its position. */
  function LargeSizes(values: seq<nat>, width: nat): nat {
    if values == [] then 0
    else (if values[0] >= Pow2(width) then 1 + Size(values[0]) else 0) + LargeSizes(values[1..], width)
  }

  /** The bytes that `count` values of `width` bits take, rounded up. */
  function PackedSize(count: nat, width: nat): nat {
    1 + (count * width + 7) / 8
  }

  function PatchedSize(values: seq<nat>, width: nat): nat {
    2 + (|values| * width + 7) / 8 + LargeSizes(values, width)
  }

  /** The least number of bits, `least` or more, that every value fits. */
  ghost predicate IsWidth(values: seq<nat>, width: nat, least: nat) {
    && width >= least && (forall i :: 0 <= i < |values| ==> values[i] < Pow2(width))
    && (width > least ==> exists i :: 0 <= i < |values| && values[i] >= Pow2(width - 1))
  }

  lemma SizeIs(v: u32)
    ensures Size(v) == VarintLenForBits(BitWidth(v))
  {
    hide BitWidth, Pow2;
    Pow2Values();
    BitWidthBound(v, 7);
    BitWidthBound(v, 14);
    BitWidthBound(v, 21);
    BitWidthBound(v, 28);
  }

  lemma {:induction false} SizesAre(values: seq<u32>, width: nat)
    ensures Sizes(values) == VarintCost(values) && LargeSizes(values, width) == ExceptionCost(values, width)
  {
    hide Size, BitWidth, VarintLenForBits, Pow2;
    if values != [] {
      SizeIs(values[0]);
      SizesAre(values[1..], width);
    }
  }

  lemma WidthIs(values: seq<u32>, width: nat, least: nat)
    requires IsWidth(values, width, least)
    ensures width == Max(MaxWidth(values), least)
  {
    hide Pow2, MaxWidth;
    MaxWidthBounds(values, width);
    if width > least {
      MaxWidthBounds(values, width - 1);
    }
  }

  lemma PackedSizeIs(count: nat, width: nat)
    ensures PackedSize(count, width) == 1 + PackedLen(count, width)
  {
  }

  lemma PatchedSizeIs(values: seq<u32>, width: nat)
    ensures PatchedSize(values, width) == PlanCost(Patched(width, ExceptionCount(values, width)), values)
  {
    hide LargeSizes, ExceptionCost;
    SizesAre(values, width);
    PackedSizeIs(|values|, width);
  }

  // The first byte

  lemma FirstByte(docs: seq<u32>, freqs: seq<u32>)
    requires ValidBlock(docs, freqs)
    ensures Block(docs, freqs) != []
    ensures Block(docs, freqs)[0] / 4 == FreqMode(BestFreqPlan(freqs))
    ensures Block(docs, freqs)[0] % 4 == DocMode(BestPlan(Deltas(docs)))
  {
    hide DocChannel, FreqChannel, BestPlan, BestFreqPlan, Deltas, Varint;
    BestPlanValid(Deltas(docs));
    BestFreqPlanValid(freqs);
  }

  /** The frequency mode in the first byte: 0 for all ones, 1 for one other value throughout,
      3 where varints are shorter than packing, 2 otherwise. */
  lemma FreqModeSays(docs: seq<u32>, freqs: seq<u32>, width: nat)
    requires ValidBlock(docs, freqs) && IsWidth(freqs, width, 1)
    ensures var mode := Block(docs, freqs)[0] / 4;
      var equal := forall i :: 0 <= i < |freqs| ==> freqs[i] == freqs[0];
      && (mode == 0 <==> (equal && freqs[0] == 1))
      && (mode == 1 <==> (equal && freqs[0] != 1))
      && (mode == 3 <==> (!equal && Sizes(freqs) < PackedSize(|freqs|, width)))
      && (mode == 2 <==> (!equal && Sizes(freqs) >= PackedSize(|freqs|, width)))
  {
    hide Block, Pow2, MaxWidth, VarintCost, Sizes, PackedLen, IsWidth, PackedSize;
    FirstByte(docs, freqs);
    WidthIs(freqs, width, 1);
    SizesAre(freqs, 0);
    PackedSizeIs(|freqs|, width);
    FreqPlanSays(freqs, width);
  }

  lemma FreqPlanSays(freqs: seq<u32>, width: nat)
    requires freqs != [] && width == FreqWidth(freqs)
    ensures var mode := FreqMode(BestFreqPlan(freqs));
      var equal := forall i :: 0 <= i < |freqs| ==> freqs[i] == freqs[0];
      && (mode == 0 <==> (equal && freqs[0] == 1))
      && (mode == 1 <==> (equal && freqs[0] != 1))
      && (mode == 3 <==> (!equal && VarintCost(freqs) < 1 + PackedLen(|freqs|, width)))
      && (mode == 2 <==> (!equal && VarintCost(freqs) >= 1 + PackedLen(|freqs|, width)))
  {
    hide Pow2, MaxWidth, VarintCost, PackedLen, FreqWidth;
    BestFreqPlanValid(freqs);
    var equal := forall i :: 0 <= i < |freqs| ==> freqs[i] == freqs[0];
    if equal {
      if freqs[0] == 1 {
        assert forall freq | freq in freqs :: freq == 1;
      } else {
        assert freqs[0] in freqs;
        assert BestFreqPlan(freqs) == Constant;
      }
    }
  }

  /** The doc-id mode in the first byte: 0 where varints of the gaps are as short as packing and
      as patching at every width below theirs, 1 where packing is shorter than all, 2 otherwise. */
  lemma DocModeSays(docs: seq<u32>, freqs: seq<u32>, width: nat)
    requires ValidBlock(docs, freqs) && IsWidth(Deltas(docs), width, 0)
    ensures var mode := Block(docs, freqs)[0] % 4;
      var gaps := Deltas(docs);
      var packed := PackedSize(|gaps|, width);
      var varints := Sizes(gaps);
      var wins := packed < varints && forall w :: 1 <= w < width ==> packed < PatchedSize(gaps, w);
      var plain := varints <= packed && forall w :: 1 <= w < width ==> varints <= PatchedSize(gaps, w);
      && (mode == 0 <==> plain) && (mode == 1 <==> wins) && (mode == 2 <==> !plain && !wins)
  {
    hide Block, Pow2, MaxWidth, VarintCost, Sizes, PackedLen, IsWidth, BestPlan, Deltas, PackedSize, PatchedSize;
    var gaps := Deltas(docs);
    FirstByte(docs, freqs);
    WidthIs(gaps, width, 0);
    SizesAre(gaps, 0);
    PackedSizeIs(|gaps|, width);
    forall w: nat | 1 <= w < width
      ensures PatchedSize(gaps, w) == PlanCost(Patched(w, ExceptionCount(gaps, w)), gaps)
    {
      PatchedSizeIs(gaps, w);
    }
    PlanSays(gaps, width);
  }

  lemma PlanSays(gaps: seq<u32>, width: nat)
    requires width == MaxWidth(gaps) && forall i :: 0 <= i < |gaps| ==> gaps[i] >= 1
    ensures var best := BestPlan(gaps);
      var packed := PlanCost(Packed(width), gaps);
      var varints := PlanCost(VarintDeltas, gaps);
      && (best.VarintDeltas? ==> varints <= packed)
      && (best.Packed? ==> packed < varints)
      && (best.Patched? ==> 1 <= best.width < width && PlanCost(best, gaps) < varints && PlanCost(best, gaps) <= packed)
      && (best.Patched? ==> best == Patched(best.width, ExceptionCount(gaps, best.width)))
      && (forall w :: 1 <= w < width ==>
          var patched := PlanCost(Patched(w, ExceptionCount(gaps, w)), gaps);
          (best.VarintDeltas? ==> varints <= patched) && (best.Packed? ==> packed < patched))
  {
    hide Pow2, MaxWidth, PlanCost, ExceptionCount, BestBelow;
    var best := BestPlan(gaps);
    BestPlanValid(gaps);
    MaxWidthU32(gaps);
    MaxWidthBounds(gaps, width);
    if width > 0 {
      BestBelowOptimal(gaps, width, 0);
      BestPlanOptimal(gaps, VarintDeltas);
      BestPlanOptimal(gaps, Packed(width));
      forall w: nat | 1 <= w < width ensures NoWorse(best, Patched(w, ExceptionCount(gaps, w)), gaps) {
        SomeException(gaps, w);
        BestPlanOptimal(gaps, Patched(w, ExceptionCount(gaps, w)));
      }
      if best.Patched? {
        SomeException(gaps, best.width);
      }
    } else {
      NothingToPlan(gaps);
    }
  }

  lemma NothingToPlan(gaps: seq<u32>)
    requires MaxWidth(gaps) == 0 && forall i :: 0 <= i < |gaps| ==> gaps[i] >= 1
    ensures gaps == [] && PlanCost(VarintDeltas, gaps) == 0
  {
  }

  // Byte by byte

  /** The encoder writes these bytes for these postings, and the decoder reads them back. */
  ghost predicate Spelled(docs: seq<u32>, freqs: seq<u32>, bytes: seq<byte>) {
    ValidBlock(docs, freqs) && Block(docs, freqs) == bytes && DecodeBlock(bytes, |docs|) == Ok((docs, freqs), [])
  }

  lemma SpelledBy(docs: seq<u32>, freqs: seq<u32>, bytes: seq<byte>)
    requires ValidBlock(docs, freqs) && Block(docs, freqs) == bytes
    ensures Spelled(docs, freqs, bytes)
  {
    hide Block, DecodeBlock;
    EncodedBlockDecodes(docs, freqs, []);
    assert bytes + [] == bytes;
  }

  lemma Spell(plan: DocPlan, freqPlan: FreqPlan, docs: seq<u32>, freqs: seq<u32>, first: seq<byte>, doc: seq<byte>,
              freq: seq<byte>, bytes: seq<byte>)
    requires ValidBlock(docs, freqs) && BestPlan(Deltas(docs)) == plan && BestFreqPlan(freqs) == freqPlan
    requires ValidDocPlan(plan, Deltas(docs)) && ValidFreqPlan(freqPlan, freqs)
    requires Varint(docs[0]) == first && DocChannel(plan, Deltas(docs)) == doc && FreqChannel(freqPlan, freqs) == freq
    requires bytes == [DocMode(plan) + 4 * FreqMode(freqPlan)] + (first + (doc + freq))
    ensures Spelled(docs, freqs, bytes)
  {
    hide DecodeBlock, Varint, DocChannel, FreqChannel, BestPlan, BestFreqPlan, Deltas, ValidDocPlan, ValidFreqPlan;
    SpelledBy(docs, freqs, bytes);
  }

  lemma SmallVarint(v: nat)
    ensures v < 128 ==> Varint(v) == [v]
    ensures Varint(300) == [0xac, 0x02]
  {
    assert 300 / 128 == 2 && 300 % 128 == 44;
    assert Varint(2) == [2];
  }

  lemma SmallWidths()
    ensures BitWidth(1) == 1 && BitWidth(2) == 2 && BitWidth(3) == 2 && BitWidth(300) == 9
    ensures Pow2(1) == 2 && Pow2(2) == 4 && Pow2(8) == 256 && Pow2(9) == 512
  {
    assert Pow2(8) == 256;
    BitWidthBound(300, 8);
    BitWidthBound(300, 9);
    assert BitWidth(1) == 1 + BitWidth(0);
    assert BitWidth(2) == 1 + BitWidth(1) && BitWidth(3) == 1 + BitWidth(1);
  }

  lemma Gap(first: u32, rest: seq<u32>)
    requires StrictlyIncreasing(rest) && rest != [] && first < rest[0]
    ensures StrictlyIncreasing([first] + rest) && Deltas([first] + rest) == [rest[0] - first] + Deltas(rest)
  {
    hide Deltas;
    IncreasingCons(first, rest);
    assert ([first] + rest)[1..] == rest;
    DeltasUnfold([first] + rest);
  }

  lemma NoGap(only: u32)
    ensures StrictlyIncreasing([only]) && Deltas([only]) == []
  {
  }

  lemma GapsOfTwo()
    ensures StrictlyIncreasing([1, 301]) && Deltas([1, 301]) == [300]
  {
    hide Deltas;
    NoGap(301);
    Gap(1, [301]);
    assert [1] + [301] == [1, 301] && [300] + [] == [300];
  }

  lemma GapsOfFour()
    ensures StrictlyIncreasing([0, 1, 2, 3]) && Deltas([0, 1, 2, 3]) == [1, 1, 1]
  {
    hide Deltas, StrictlyIncreasing;
    NoGap(3);
    Gap(2, [3]);
    Gap(1, [2] + [3]);
    Gap(0, [1] + ([2] + [3]));
    assert [0] + ([1] + ([2] + [3])) == [0, 1, 2, 3] && [1] + ([1] + ([1] + [])) == [1, 1, 1];
  }

  lemma NoGaps()
    ensures BestPlan([]) == VarintDeltas && DocChannel(VarintDeltas, []) == []
  {
  }

  lemma OneOnly()
    ensures BestFreqPlan([1]) == AllOnes && FreqChannel(AllOnes, [1]) == []
  {
  }

  /** One posting: varint ids, every frequency 1. */
  lemma SinglePosting()
    ensures Spelled([300], [1], [0x00, 0xac, 0x02])
  {
    SmallVarint(0);
    NoGaps();
    OneOnly();
    assert Deltas([300]) == [];
    assert [0] + ([0xac, 0x02] + ([] + [])) == [0x00, 0xac, 0x02];
    hide BestPlan, BestFreqPlan, DocChannel, FreqChannel, Varint, Spelled, Deltas;
    Spell(VarintDeltas, AllOnes, [300], [1], [0xac, 0x02], [], [], [0x00, 0xac, 0x02]);
  }

  lemma OneWideGap()
    ensures BestPlan([300]) == VarintDeltas && DocChannel(VarintDeltas, [300]) == [0xac, 0x02]
  {
    SmallWidths();
    SmallVarint(0);
    assert VarintCost([300]) == 2 by {
      assert [300][1..] == [];
    }
    assert Varints([300]) == Varint(300) + Varints([]);
    hide BestPlan, Varint, Varints, BitWidth, VarintCost;
    BestPlanValid([300]);
    BestPlanOptimal([300], VarintDeltas);
    PackedAtLeast(BestPlan([300]), [300]);
  }

  lemma PackedAtLeast(plan: DocPlan, deltas: seq<u32>)
    requires ValidDocPlan(plan, deltas) && deltas != []
    ensures !plan.VarintDeltas? ==> PlanCost(plan, deltas) >= 2
  {
    hide ExceptionCost, Pow2;
    if plan.Packed? {
      MulMonotonic(plan.width, 1, |deltas|);
    }
  }

  lemma SevenTwice()
    ensures BestFreqPlan([7, 7]) == Constant && ValidFreqPlan(Constant, [7, 7]) && FreqChannel(Constant, [7, 7]) == [7]
  {
    assert 7 in [7, 7];
  }

  lemma TwoPostingsSplit()
    ensures ValidBlock([1, 301], [7, 7]) && Deltas([1, 301]) == [300] && Varint(1) == [1]
    ensures DocMode(VarintDeltas) + 4 * FreqMode(Constant) == 0x04 && ValidDocPlan(VarintDeltas, [300])
    ensures [0x04, 0x01, 0xac, 0x02, 0x07] == [4] + ([1] + ([0xac, 0x02] + [7]))
  {
    SmallVarint(1);
    GapsOfTwo();
  }

  /** Two postings: a varint gap, one frequency throughout. */
  lemma TwoPostings()
    ensures Spelled([1, 301], [7, 7], [0x04, 0x01, 0xac, 0x02, 0x07])
  {
    hide *;
    OneWideGap();
    SevenTwice();
    TwoPostingsSplit();
    Spell(VarintDeltas, Constant, [1, 301], [7, 7], [1], [0xac, 0x02], [7], [0x04, 0x01, 0xac, 0x02, 0x07]);
  }

  // Packed bytes

  lemma PackOne(v: nat, rest: seq<nat>, width: nat)
    requires 1 <= width <= 2 && v < Pow2(width)
    ensures PackedNumber([v] + rest, width) == v + (if width == 1 then 2 else 4) * PackedNumber(rest, width)
  {
    assert Pow2(1) == 2 && Pow2(2) == 4;
    PackedNumberCons(v, rest, width);
    LowSmall(v, width);
  }

  lemma OneByte(x: nat)
    requires x < 256
    ensures ToBytes(x, 1) == [x]
  {
    assert ToBytes(x / 256, 0) == [];
  }

  lemma PackThreeOnes()
    ensures PackBits([1, 1, 1], 1) == [0x07]
  {
    assert Pow2(1) == 2;
    NothingPacked(1);
    assert PackedLen(3, 1) == 1;
    OneByte(7);
    hide PackedNumber, ToBytes, PackedLen, Pow2;
    assert [1, 1, 1] == [1] + ([1] + ([1] + []));
    PackOne(1, [], 1);
    PackOne(1, [1] + [], 1);
    PackOne(1, [1] + ([1] + []), 1);
  }

  lemma PackTwosAndThrees()
    ensures PackBits([2, 3, 2, 3], 2) == [0xee]
  {
    assert Pow2(2) == 4;
    NothingPacked(2);
    assert PackedLen(4, 2) == 1;
    OneByte(0xee);
    hide PackedNumber, ToBytes, PackedLen, Pow2;
    assert [2, 3, 2, 3] == [2] + ([3] + ([2] + ([3] + [])));
    PackOne(3, [], 2);
    PackOne(2, [3] + [], 2);
    PackOne(3, [2] + ([3] + []), 2);
    PackOne(2, [3] + ([2] + ([3] + [])), 2);
  }

  lemma PackWithHole()
    ensures PackBits([1, 1, 1, 0, 1, 1, 1, 1], 1) == [0xf7]
  {
    assert Pow2(1) == 2;
    NothingPacked(1);
    assert PackedLen(8, 1) == 1;
    OneByte(0xf7);
    hide PackedNumber, ToBytes, PackedLen, Pow2;
    var d: seq<nat> := [1] + [];
    var c := [1] + d;
    var b := [1] + c;
    var a := [1] + b;
    assert [1, 1, 1, 0, 1, 1, 1, 1] == [1] + ([1] + ([1] + ([0] + a)));
    PackOne(1, [], 1);
    PackOne(1, d, 1);
    PackOne(1, c, 1);
    PackOne(1, b, 1);
    PackOne(0, a, 1);
    PackOne(1, [0] + a, 1);
    PackOne(1, [1] + ([0] + a), 1);
    PackOne(1, [1] + ([1] + ([0] + a)), 1);
  }

  lemma ThreeUnitGaps()
    ensures BestPlan([1, 1, 1]) == Packed(1) && ValidDocPlan(Packed(1), [1, 1, 1])
    ensures DocChannel(Packed(1), [1, 1, 1]) == [0x01, 0x07]
  {
    PackThreeOnes();
    SmallWidths();
    hide PackBits;
    var gaps: seq<u32> := [1, 1, 1];
    assert gaps[1..] == [1, 1] && [1, 1][1..] == [1] && [1][1..] == [];
    assert MaxWidth([1]) == 1;
    assert MaxWidth([1, 1]) == 1;
    assert MaxWidth(gaps) == 1;
    assert VarintCost([1]) == 1;
    assert VarintCost([1, 1]) == 2;
    assert VarintCost(gaps) == 3;
    assert PackedLen(3, 1) == 1;
    hide MaxWidth, VarintCost, PackedLen, Pow2, BitWidth;
    assert [1] + [0x07] == [0x01, 0x07];
  }

  lemma TwosAndThrees()
    ensures BestFreqPlan([2, 3, 2, 3]) == PackedFreqs(2) && ValidFreqPlan(PackedFreqs(2), [2, 3, 2, 3])
    ensures FreqChannel(PackedFreqs(2), [2, 3, 2, 3]) == [0x02, 0xee]
  {
    PackTwosAndThrees();
    SmallWidths();
    hide PackBits;
    var freqs: seq<u32> := [2, 3, 2, 3];
    assert freqs[1..] == [3, 2, 3] && [3, 2, 3][1..] == [2, 3] && [2, 3][1..] == [3] && [3][1..] == [];
    assert MaxWidth([3]) == 2;
    assert MaxWidth([2, 3]) == 2;
    assert MaxWidth([3, 2, 3]) == 2;
    assert MaxWidth(freqs) == 2;
    assert VarintCost([3]) == 1;
    assert VarintCost([2, 3]) == 2;
    assert VarintCost([3, 2, 3]) == 3;
    assert VarintCost(freqs) == 4;
    assert PackedLen(4, 2) == 1;
    hide MaxWidth, VarintCost, PackedLen, Pow2, BitWidth;
    assert freqs[0] in freqs && freqs[0] != 1;
    assert freqs[1 - 1] != freqs[1];
    assert [2] + [0xee] == [0x02, 0xee];
  }

  lemma FourPostingsSplit()
    ensures ValidBlock([0, 1, 2, 3], [2, 3, 2, 3]) && Deltas([0, 1, 2, 3]) == [1, 1, 1] && Varint(0) == [0]
    ensures DocMode(Packed(1)) + 4 * FreqMode(PackedFreqs(2)) == 0x09
    ensures [0x09, 0x00, 0x01, 0x07, 0x02, 0xee] == [9] + ([0] + ([0x01, 0x07] + [0x02, 0xee]))
  {
    hide Deltas;
    SmallVarint(0);
    GapsOfFour();
  }

  /** Four postings: packed gaps, packed frequencies. */
  lemma FourPostings()
    ensures Spelled([0, 1, 2, 3], [2, 3, 2, 3], [0x09, 0x00, 0x01, 0x07, 0x02, 0xee])
  {
    hide *;
    ThreeUnitGaps();
    TwosAndThrees();
    FourPostingsSplit();
    Spell(Packed(1), PackedFreqs(2), [0, 1, 2, 3], [2, 3, 2, 3], [0], [0x01, 0x07], [0x02, 0xee],
          [0x09, 0x00, 0x01, 0x07, 0x02, 0xee]);
  }

  // A patched block

  const JUMP: seq<u32> := [0, 1, 2, 3, 303, 304, 305, 306, 307]
  const JUMP_GAPS: seq<u32> := [1, 1, 1, 300, 1, 1, 1, 1]
  const RARE: seq<u32> := [1, 1, 1, 1, 1, 1, 1, 1, 300]

  lemma GapsOfJump()
    ensures StrictlyIncreasing(JUMP) && Deltas(JUMP) == JUMP_GAPS
  {
    hide Deltas, StrictlyIncreasing;
    var h: seq<u32> := [306] + [307];
    var g := [305] + h;
    var f := [304] + g;
    var e := [303] + f;
    var d := [3] + e;
    var c := [2] + d;
    var b := [1] + c;
    NoGap(307);
    Gap(306, [307]);
    Gap(305, h);
    Gap(304, g);
    Gap(303, f);
    Gap(3, e);
    Gap(2, d);
    Gap(1, c);
    Gap(0, b);
    assert [0] + b == JUMP;
  }

  lemma CostsCons(v: u32, rest: seq<u32>, width: nat)
    ensures VarintCost([v] + rest) == Size(v) + VarintCost(rest)
    ensures MaxWidth([v] + rest) == Max(BitWidth(v), MaxWidth(rest))
    ensures ExceptionCount([v] + rest, width) == (if v >= Pow2(width) then 1 else 0) + ExceptionCount(rest, width)
    ensures ExceptionCost([v] + rest, width)
      == (if v >= Pow2(width) then 1 + Size(v) else 0) + ExceptionCost(rest, width)
    ensures Base([v] + rest, width) == [if v >= Pow2(width) then 0 else v] + Base(rest, width)
    ensures Varints([v] + rest) == Varint(v) + Varints(rest)
  {
    hide BitWidth, VarintLenForBits, Pow2, Varint, Size;
    SizeIs(v);
    assert ([v] + rest)[1..] == rest;
  }

  lemma CostsNone(width: nat)
    ensures VarintCost([]) == 0 && MaxWidth([]) == 0 && ExceptionCount([], width) == 0 && ExceptionCost([], width) == 0
    ensures Base([], width) == [] && Varints([]) == []
  {
  }

  lemma One(rest: seq<u32>, width: nat)
    requires width >= 1
    ensures VarintCost([1] + rest) == 1 + VarintCost(rest)
    ensures MaxWidth([1] + rest) == Max(1, MaxWidth(rest))
    ensures ExceptionCount([1] + rest, width) == ExceptionCount(rest, width)
    ensures ExceptionCost([1] + rest, width) == ExceptionCost(rest, width)
    ensures Base([1] + rest, width) == [1] + Base(rest, width)
    ensures Varints([1] + rest) == [1] + Varints(rest)
  {
    SmallVarint(1);
    SmallWidths();
    Pow2Monotonic(1, width);
    hide VarintCost, ExceptionCount, ExceptionCost, Base, Varints, Varint, BitWidth, Pow2, MaxWidth;
    CostsCons(1, rest, width);
  }

  lemma ThreeHundred(rest: seq<u32>, width: nat)
    ensures VarintCost([300] + rest) == 2 + VarintCost(rest)
    ensures MaxWidth([300] + rest) == Max(9, MaxWidth(rest))
    ensures width < 9 ==> ExceptionCount([300] + rest, width) == 1 + ExceptionCount(rest, width)
    ensures width < 9 ==> ExceptionCost([300] + rest, width) == 3 + ExceptionCost(rest, width)
    ensures width < 9 ==> Base([300] + rest, width) == [0] + Base(rest, width)
    ensures Varints([300] + rest) == [0xac, 0x02] + Varints(rest)
  {
    SmallVarint(1);
    SmallWidths();
    if width < 9 {
      Pow2Monotonic(width, 8);
    }
    hide VarintCost, ExceptionCount, ExceptionCost, Base, Varints, Varint, BitWidth, Pow2, MaxWidth;
    CostsCons(300, rest, width);
  }

  /** What the planner compares on the gaps of the example. */
  lemma JumpCosts(width: nat)
    requires 1 <= width < 9
    ensures VarintCost(JUMP_GAPS) == 9 && MaxWidth(JUMP_GAPS) == 9
    ensures ExceptionCount(JUMP_GAPS, width) == 1 && ExceptionCost(JUMP_GAPS, width) == 3
    ensures Base(JUMP_GAPS, width) == [1, 1, 1, 0, 1, 1, 1, 1]
  {
    hide VarintCost, ExceptionCount, ExceptionCost, Base, Varints, Varint, BitWidth, Pow2, MaxWidth;
    CostsNone(width);
    var g: seq<u32> := [1] + [];
    var f := [1] + g;
    var e := [1] + f;
    var d := [1] + e;
    var c := [300] + d;
    var b := [1] + c;
    var a := [1] + b;
    One([], width);
    One(g, width);
    One(f, width);
    One(e, width);
    ThreeHundred(d, width);
    One(c, width);
    One(b, width);
    One(a, width);
    assert JUMP_GAPS == [1] + a;
  }

  lemma ListCons(v: u32, rest: seq<u32>, at: nat)
    requires at + 1 + |rest| <= 256 && (v == 1 || v == 300)
    ensures var later := ExceptionList(rest, 1, at + 1);
      ExceptionList([v] + rest, 1, at) == if v == 1 then later else [at] + ([0xac, 0x02] + later)
  {
    SmallVarint(0);
    SmallWidths();
    hide Pow2, Varint;
    assert ([v] + rest)[1..] == rest;
  }

  lemma NothingListed(at: nat)
    requires at <= 256
    ensures ExceptionList([], 1, at) == []
  {
  }

  lemma JumpListed()
    ensures ExceptionList(JUMP_GAPS, 1, 0) == [3, 0xac, 0x02]
  {
    hide ExceptionList;
    NothingListed(8);
    var g: seq<u32> := [1] + [];
    var f := [1] + g;
    var e := [1] + f;
    var d := [1] + e;
    var c := [300] + d;
    var b := [1] + c;
    var a := [1] + b;
    ListCons(1, [], 7);
    ListCons(1, g, 6);
    ListCons(1, f, 5);
    ListCons(1, e, 4);
    ListCons(300, d, 3);
    ListCons(1, c, 2);
    ListCons(1, b, 1);
    ListCons(1, a, 0);
    assert JUMP_GAPS == [1] + a;
  }

  /** One wide gap among narrow ones is patched into packed bits. */
  lemma JumpPlan()
    ensures ValidDocPlan(Patched(1, 1), JUMP_GAPS) && BestPlan(JUMP_GAPS) == Patched(1, 1)
  {
    hide BestPlan, VarintCost, ExceptionCount, ExceptionCost, Pow2, MaxWidth, BitWidth, Base;
    var best := BestPlan(JUMP_GAPS);
    JumpCosts(1);
    BestPlanValid(JUMP_GAPS);
    BestPlanOptimal(JUMP_GAPS, Patched(1, 1));
    match best
    case VarintDeltas => assert false;
    case Packed(width) =>
      MaxWidthBounds(JUMP_GAPS, width);
      assert false;
    case Patched(width, _) =>
      SomeException(JUMP_GAPS, width);
      JumpCosts(width);
  }

  lemma JumpChannel()
    ensures ValidDocPlan(Patched(1, 1), JUMP_GAPS)
    ensures DocChannel(Patched(1, 1), JUMP_GAPS) == [0x01, 0x01, 0xf7, 0x03, 0xac, 0x02]
  {
    hide BestPlan, ExceptionCount, ExceptionCost, Base, ExceptionList, PackBits;
    JumpPlan();
    JumpCosts(1);
    PackWithHole();
    JumpListed();
    assert [1] + ([1] + ([0xf7] + [3, 0xac, 0x02])) == [0x01, 0x01, 0xf7, 0x03, 0xac, 0x02];
  }

  lemma RareCosts()
    ensures VarintCost(RARE) == 10 && MaxWidth(RARE) == 9
    ensures Varints(RARE) == [1, 1, 1, 1, 1, 1, 1, 1, 0xac, 0x02]
  {
    hide VarintCost, ExceptionCount, ExceptionCost, Base, Varints, Varint, BitWidth, Pow2, MaxWidth;
    CostsNone(1);
    var h: seq<u32> := [300] + [];
    var g := [1] + h;
    var f := [1] + g;
    var e := [1] + f;
    var d := [1] + e;
    var c := [1] + d;
    var b := [1] + c;
    var a := [1] + b;
    ThreeHundred([], 1);
    One(h, 1);
    One(g, 1);
    One(f, 1);
    One(e, 1);
    One(d, 1);
    One(c, 1);
    One(b, 1);
    One(a, 1);
    assert RARE == [1] + a;
  }

  lemma RareChannel()
    ensures BestFreqPlan(RARE) == VarintFreqs
    ensures FreqChannel(VarintFreqs, RARE) == [1, 1, 1, 1, 1, 1, 1, 1, 0xac, 0x02]
  {
    hide VarintCost, Varints, MaxWidth;
    RareCosts();
    assert PackedLen(9, 9) == 11;
    assert RARE[8] in RARE && RARE[8] != 1;
    assert RARE[8 - 1] != RARE[8];
  }

  const JUMP_BYTES: seq<byte> :=
    [0x0e, 0x00, 0x01, 0x01, 0xf7, 0x03, 0xac, 0x02, 0x01, 0x01, 0x01, 0x01, 0x01, 0x01, 0x01, 0x01, 0xac, 0x02]

  lemma JumpSplit()
    ensures ValidBlock(JUMP, RARE) && Deltas(JUMP) == JUMP_GAPS && Varint(JUMP[0]) == [0]
    ensures DocMode(Patched(1, 1)) + 4 * FreqMode(VarintFreqs) == 0x0e && ValidFreqPlan(VarintFreqs, RARE)
    ensures JUMP_BYTES ==
      [0x0e] + ([0x00] + ([0x01, 0x01, 0xf7, 0x03, 0xac, 0x02] + [1, 1, 1, 1, 1, 1, 1, 1, 0xac, 0x02]))
  {
    hide Deltas, StrictlyIncreasing;
    SmallVarint(0);
    GapsOfJump();
    assert |JUMP| == 9 && |RARE| == 9;
  }

  /** Nine postings with one long jump and one high frequency: patched gaps, varint frequencies. */
  lemma NinePostings()
    ensures Spelled(JUMP, RARE, JUMP_BYTES)
  {
    hide *;
    JumpPlan();
    JumpChannel();
    RareChannel();
    JumpSplit();
    Spell(Patched(1, 1), VarintFreqs, JUMP, RARE, [0x00], [0x01, 0x01, 0xf7, 0x03, 0xac, 0x02],
          [1, 1, 1, 1, 1, 1, 1, 1, 0xac, 0x02], JUMP_BYTES);
  }
}
