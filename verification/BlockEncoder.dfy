/** The block encoder as it runs: one pass builds the deltas, their width histogram and the
    varint cost; the planner works on the histogram alone; then the channels are written. */
module BlockEncoder {
  import opened Sequences
  import opened BitOps
  import opened Bytes
  import opened Leb128
  import opened BitPacking
  import opened BlockFormat
  import opened BlockPlanning

  datatype BlockedEncodeStats =
    BlockedEncodeStats(blocks: nat, docIdBytes: nat, freqBytes: nat, freqOmittedBlocks: nat)

  // What the histogram knows of the deltas

  function CountWidth(values: seq<u32>, bits: nat): nat {
    if values == [] then 0
    else (if BitWidth(values[0]) == bits then 1 else 0) + CountWidth(values[1..], bits)
  }

  ghost predicate IsHistogram(histogram: seq<nat>, values: seq<u32>) {
    |histogram| == 33 && forall bits :: 0 <= bits < 33 ==> histogram[bits] == CountWidth(values, bits)
  }

  function CountBetween(values: seq<u32>, lo: nat, hi: nat): nat {
    if values == [] then 0
    else (if lo < BitWidth(values[0]) <= hi then 1 else 0) + CountBetween(values[1..], lo, hi)
  }

  function CostBetween(values: seq<u32>, lo: nat, hi: nat): nat {
    if values == [] then 0
    else (if lo < BitWidth(values[0]) <= hi then 1 + VarintLenForBits(BitWidth(values[0])) else 0)
         + CostBetween(values[1..], lo, hi)
  }

  function Several(n: nat, each: nat): nat {
    n * each
  }

  lemma SeveralPlus(n: nat, each: nat)
    ensures Several(0, each) == 0 && Several(1 + n, each) == each + Several(n, each)
  {
    MulSplit(each, 1, n);
  }

  lemma {:induction false} OneMoreWidthCosts(values: seq<u32>, lo: nat, hi: nat)
    requires lo <= hi
    ensures CountBetween(values, lo, hi + 1) == CountBetween(values, lo, hi) + CountWidth(values, hi + 1)
    ensures CostBetween(values, lo, hi + 1)
         == CostBetween(values, lo, hi) + Several(CountWidth(values, hi + 1), 1 + VarintLenForBits(hi + 1))
  {
    hide BitWidth, VarintLenForBits, Several;
    SeveralPlus(if values == [] then 0 else CountWidth(values[1..], hi + 1), 1 + VarintLenForBits(hi + 1));
    if values != [] {
      OneMoreWidthCosts(values[1..], lo, hi);
    }
  }

  lemma OneMoreWidth(values: seq<u32>, lo: nat, hi: nat)
    requires lo <= hi
    ensures CountBetween(values, lo, hi + 1) == CountBetween(values, lo, hi) + CountWidth(values, hi + 1)
    ensures CostBetween(values, lo, hi + 1)
         == CostBetween(values, lo, hi) + CountWidth(values, hi + 1) * (1 + VarintLenForBits(hi + 1))
  {
    OneMoreWidthCosts(values, lo, hi);
  }

  lemma {:induction false} NothingBetween(values: seq<u32>, lo: nat)
    ensures CountBetween(values, lo, lo) == 0 && CostBetween(values, lo, lo) == 0
  {
    if values != [] {
      NothingBetween(values[1..], lo);
    }
  }

  /** Counting by width and comparing with the threshold see the same exceptions. */
  lemma {:induction false} ExceptionsByWidth(values: seq<u32>, width: nat, top: nat)
    requires MaxWidth(values) <= top
    ensures CountBetween(values, width, top) == ExceptionCount(values, width)
    ensures CostBetween(values, width, top) == ExceptionCost(values, width)
  {
    hide BitWidth, VarintLenForBits, Pow2;
    if values != [] {
      BitWidthBound(values[0], width);
      ExceptionsByWidth(values[1..], width, top);
    }
  }

  lemma {:induction false} WidthsUsed(values: seq<u32>, bits: nat)
    ensures CountWidth(values, bits) > 0 ==> bits <= MaxWidth(values)
    ensures values != [] ==> CountWidth(values, MaxWidth(values)) > 0
  {
    hide BitWidth;
    if values != [] {
      var m := MaxWidth(values[1..]);
      WidthsUsed(values[1..], bits);
      WidthsUsed(values[1..], m);
    }
  }

  lemma {:induction false} CountWidthSnoc(values: seq<u32>, v: u32, bits: nat)
    ensures CountWidth(values + [v], bits) == CountWidth(values, bits) + if BitWidth(v) == bits then 1 else 0
  {
    hide BitWidth;
    if values == [] {
      assert values + [v] == [v];
    } else {
      CountWidthSnoc(values[1..], v, bits);
      assert (values + [v])[1..] == values[1..] + [v];
    }
  }

  lemma {:induction false} VarintCostSnoc(values: seq<u32>, v: u32)
    ensures VarintCost(values + [v]) == VarintCost(values) + VarintLenForBits(BitWidth(v))
  {
    hide BitWidth, VarintLenForBits;
    if values == [] {
      assert values + [v] == [v];
    } else {
      VarintCostSnoc(values[1..], v);
      assert (values + [v])[1..] == values[1..] + [v];
    }
  }

  // Planning

  /** The widest delta, found from the top of the histogram; 0 if no width is used. */
  method WidestDelta(histogram: array<nat>, ghost deltas: seq<u32>) returns (widthMax: nat)
    requires IsHistogram(histogram[..], deltas)
    ensures widthMax == MaxWidth(deltas)
  {
    hide MaxWidth, CountWidth, BitWidth;
    widthMax := MAX_PACKED_WIDTH;
    MaxWidthU32(deltas);
    while widthMax > 0 && histogram[widthMax] == 0
      invariant MaxWidth(deltas) <= widthMax <= MAX_PACKED_WIDTH
    {
      assert histogram[..][widthMax] == 0;
      WidthsUsed(deltas, widthMax);
      EmptyWidth(deltas);
      widthMax := widthMax - 1;
    }
    if widthMax > 0 {
      assert histogram[..][widthMax] > 0;
      WidthsUsed(deltas, widthMax);
    }
  }

  lemma EmptyWidth(values: seq<u32>)
    ensures values == [] ==> MaxWidth(values) == 0
  {
  }

  method PlanDocChannel(histogram: array<nat>, deltaCount: nat, varintCost: nat, ghost deltas: seq<u32>)
    returns (plan: DocPlan)
    requires IsHistogram(histogram[..], deltas) && deltaCount == |deltas| && varintCost == VarintCost(deltas)
    ensures plan == BestPlan(deltas)
  {
    hide MaxWidth, CountWidth, PackedLen, VarintLenForBits, ExceptionCount, ExceptionCost, IsHistogram;
    EmptyWidth(deltas);
    if deltaCount == 0 {
      return VarintDeltas;
    }
    var widthMax := WidestDelta(histogram, deltas);
    if widthMax == 0 {
      return VarintDeltas;
    }
    MaxWidthU32(deltas);
    plan := VarintDeltas;
    var bestCost := varintCost;
    for width := 1 to widthMax
      invariant plan == BestBelow(deltas, width) && bestCost == PlanCost(plan, deltas)
    {
      var exceptions, exceptionBytes := ExceptionsAbove(histogram, width, widthMax, deltas);
      var cost := 2 + PackedLen(deltaCount, width) + exceptionBytes;
      if cost < bestCost {
        bestCost := cost;
        plan := Patched(width, exceptions);
      }
    }
    var packedCost := 1 + PackedLen(deltaCount, widthMax);
    if packedCost < bestCost {
      plan := Packed(widthMax);
    }
  }

  /** The inner loop of the planner. */
  method ExceptionsAbove(histogram: array<nat>, width: nat, widthMax: nat, ghost deltas: seq<u32>)
    returns (exceptions: nat, exceptionBytes: nat)
    requires IsHistogram(histogram[..], deltas) && width < widthMax == MaxWidth(deltas) <= MAX_PACKED_WIDTH
    ensures exceptions == ExceptionCount(deltas, width) && exceptionBytes == ExceptionCost(deltas, width)
  {
    hide MaxWidth, CountWidth, CountBetween, CostBetween, VarintLenForBits, ExceptionCount, ExceptionCost;
    exceptions, exceptionBytes := 0, 0;
    NothingBetween(deltas, width);
    for bits := width + 1 to widthMax + 1
      invariant exceptions == CountBetween(deltas, width, bits - 1)
      invariant exceptionBytes == CostBetween(deltas, width, bits - 1)
    {
      var count := histogram[bits];
      assert histogram[..][bits] == count;
      OneMoreWidth(deltas, width, bits - 1);
      if count != 0 {
        exceptions := exceptions + count;
        exceptionBytes := exceptionBytes + count * (1 + VarintLenForBits(bits));
      }
    }
    ExceptionsByWidth(deltas, width, widthMax);
  }

  // Writing

  method WriteVarints(out: seq<byte>, values: seq<u32>) returns (out': seq<byte>)
    ensures out' == out + Varints(values)
  {
    hide Varint;
    out' := out;
    for i := 0 to |values|
      invariant out' + Varints(values[i..]) == out + Varints(values)
    {
      assert values[i..][1..] == values[i + 1..];
      out' := WriteVarint(out', values[i]);
    }
    assert Varints(values[|values|..]) == [];
  }

  /** The exceptions of a block as the encoder's scratch list holds them. */
  function ExceptionPairs(deltas: seq<u32>, width: nat, at: nat): (r: seq<(byte, u32)>)
    requires at + |deltas| <= 256
    ensures |r| == ExceptionCount(deltas, width)
  {
    if deltas == [] then []
    else if IsException(deltas[0], width) then [(at, deltas[0])] + ExceptionPairs(deltas[1..], width, at + 1)
    else ExceptionPairs(deltas[1..], width, at + 1)
  }

  function PairBytes(pairs: seq<(byte, u32)>): seq<byte> {
    if pairs == [] then [] else [pairs[0].0] + (Varint(pairs[0].1) + PairBytes(pairs[1..]))
  }

  lemma {:induction false} PairsAreTheList(deltas: seq<u32>, width: nat, at: nat)
    requires at + |deltas| <= 256
    ensures PairBytes(ExceptionPairs(deltas, width, at)) == ExceptionList(deltas, width, at)
  {
    hide Varint, IsException;
    if deltas != [] {
      PairsAreTheList(deltas[1..], width, at + 1);
      var pairs := ExceptionPairs(deltas[1..], width, at + 1);
      assert ([(at, deltas[0])] + pairs)[1..] == pairs;
    }
  }

  lemma SplitStep(deltas: seq<u32>, width: nat, index: nat)
    requires index < |deltas| <= 256
    ensures var rest := ExceptionPairs(deltas[index + 1..], width, index + 1);
      ExceptionPairs(deltas[index..], width, index)
        == if IsException(deltas[index], width) then [(index, deltas[index])] + rest else rest
  {
    hide IsException;
    assert deltas[index..][1..] == deltas[index + 1..];
  }

  /** Moves the exceptions out of `scratch`, leaving zeros. */
  method SplitExceptions(deltas: seq<u32>, width: nat) returns (scratch: seq<u32>, pairs: seq<(byte, u32)>)
    requires |deltas| < FOR_BLOCK_SIZE
    ensures scratch == Base(deltas, width) && pairs == ExceptionPairs(deltas, width, 0)
  {
    hide IsException, ExceptionPairs, Base;
    scratch, pairs := deltas, [];
    assert deltas[0..] == deltas;
    for index := 0 to |deltas|
      invariant |scratch| == |deltas|
      invariant forall i :: 0 <= i < index ==> scratch[i] == Base(deltas, width)[i]
      invariant forall i :: index <= i < |deltas| ==> scratch[i] == deltas[i]
      invariant pairs + ExceptionPairs(deltas[index..], width, index) == ExceptionPairs(deltas, width, 0)
    {
      SplitStep(deltas, width, index);
      if IsException(scratch[index], width) {
        Reassociate(pairs, [(index, scratch[index])], ExceptionPairs(deltas[index + 1..], width, index + 1));
        pairs := pairs + [(index, scratch[index])];
        scratch := scratch[index := 0];
      }
    }
    NoPairs(deltas, width);
    assert pairs + [] == pairs;
  }

  lemma NoPairs(deltas: seq<u32>, width: nat)
    requires |deltas| <= 256
    ensures ExceptionPairs(deltas[|deltas|..], width, |deltas|) == []
  {
  }

  method WritePairs(out: seq<byte>, pairs: seq<(byte, u32)>) returns (out': seq<byte>)
    ensures out' == out + PairBytes(pairs)
  {
    hide Varint;
    out' := out;
    for i := 0 to |pairs|
      invariant out' + PairBytes(pairs[i..]) == out + PairBytes(pairs)
    {
      assert pairs[i..][1..] == pairs[i + 1..];
      out' := out' + [pairs[i].0];
      out' := WriteVarint(out', pairs[i].1);
    }
    assert PairBytes(pairs[|pairs|..]) == [];
  }

  method WritePatched(out: seq<byte>, deltas: seq<u32>, width: byte, exceptions: byte) returns (out': seq<byte>)
    requires |deltas| < FOR_BLOCK_SIZE && exceptions == ExceptionCount(deltas, width)
    ensures out' == out + ([width] + ([exceptions]
      + (PackBits(Base(deltas, width), width) + ExceptionList(deltas, width, 0))))
  {
    hide PackBits, ExceptionList, ExceptionPairs, PairBytes, ExceptionCount, Base;
    out' := out + [width] + [exceptions];
    var scratch, pairs := SplitExceptions(deltas, width);
    assert |pairs| == exceptions;
    out' := Pack(out', scratch, width);
    out' := WritePairs(out', pairs);
    PairsAreTheList(deltas, width, 0);
  }

  method WriteDocChannel(out: seq<byte>, plan: DocPlan, deltas: seq<u32>) returns (out': seq<byte>)
    requires |deltas| < FOR_BLOCK_SIZE && ValidDocPlan(plan, deltas)
    ensures out' == out + DocChannel(plan, deltas)
  {
    hide Varints, PackBits, ExceptionList, ExceptionCount, Base, IsException;
    match plan
    case VarintDeltas =>
      out' := WriteVarints(out, deltas);
    case Packed(width) =>
      out' := Pack(out + [width], deltas, width);
    case Patched(width, exceptions) =>
      out' := WritePatched(out, deltas, width, exceptions);
  }

  method WriteFreqChannel(out: seq<byte>, plan: FreqPlan, freqs: seq<u32>) returns (out': seq<byte>)
    requires ValidFreqPlan(plan, freqs)
    ensures out' == out + FreqChannel(plan, freqs)
  {
    hide Varint, Varints, PackBits;
    match plan
    case AllOnes => out' := out;
    case Constant => out' := WriteVarint(out, freqs[0]);
    case PackedFreqs(width) => out' := Pack(out + [width], freqs, width);
    case VarintFreqs => out' := WriteVarints(out, freqs);
  }

  lemma {:induction false} DeltasAt(docs: seq<u32>, i: nat)
    requires StrictlyIncreasing(docs) && i + 1 < |docs|
    ensures Deltas(docs)[i] == docs[i + 1] - docs[i]
  {
    if i > 0 {
      DeltasAt(docs[1..], i - 1);
    }
  }

  /** The deltas of a chunk, their width histogram and their size as varints, in one pass. */
  method Survey(docChunk: seq<u32>) returns (scratch: seq<u32>, histogram: array<nat>, varintCost: nat)
    requires docChunk != [] && StrictlyIncreasing(docChunk)
    ensures scratch == Deltas(docChunk)
    ensures IsHistogram(histogram[..], scratch) && varintCost == VarintCost(scratch)
    ensures fresh(histogram)
  {
    hide BitWidth, Deltas, VarintLenForBits, CountWidth, VarintCost;
    histogram := new nat[33](_ => 0);
    scratch, varintCost := [], 0;
    EmptySurvey();
    for i := 0 to |docChunk| - 1
      invariant scratch == Deltas(docChunk)[..i]
      invariant forall bits :: 0 <= bits < 33 ==> histogram[bits] == CountWidth(scratch, bits)
      invariant varintCost == VarintCost(scratch)
    {
      DeltasAt(docChunk, i);
      var delta: u32 := docChunk[i + 1] - docChunk[i];
      var bits := BitWidth(delta);
      Pow2Values();
      BitWidthBound(delta, 32);
      histogram[bits] := histogram[bits] + 1;
      varintCost := varintCost + VarintLenForBits(bits);
      VarintCostSnoc(scratch, delta);
      forall b: nat | b < 33
        ensures CountWidth(scratch + [delta], b) == CountWidth(scratch, b) + if bits == b then 1 else 0
      {
        CountWidthSnoc(scratch, delta, b);
      }
      scratch := scratch + [delta];
    }
  }

  lemma EmptySurvey()
    ensures VarintCost([]) == 0 && forall bits: nat :: CountWidth([], bits) == 0
  {
  }

  /** Appends one block to `out`: exactly the bytes of the specification, with their split
      between the two channels. */
  method EncodeBlockInto(out: seq<byte>, docChunk: seq<u32>, freqChunk: seq<u32>)
    returns (out': seq<byte>, stats: BlockedEncodeStats)
    requires ValidBlock(docChunk, freqChunk)
    ensures out' == out + Block(docChunk, freqChunk)
    ensures stats.blocks == 1 && stats.docIdBytes + stats.freqBytes == |Block(docChunk, freqChunk)|
    ensures stats.freqBytes == FreqCost(BestFreqPlan(freqChunk), freqChunk)
    ensures stats.freqOmittedBlocks == if forall i :: 0 <= i < |freqChunk| ==> freqChunk[i] == 1 then 1 else 0
  {
    hide Deltas, Varint, DocChannel, FreqChannel, ValidDocPlan, BestPlan, BestFreqPlan, FreqCost, DocMode, FreqMode,
         ValidFreqPlan;
    var docStart := |out|;
    var scratch, histogram, varintCost := Survey(docChunk);
    var plan := PlanDocChannel(histogram, |scratch|, varintCost, scratch);
    BestPlanValid(scratch);
    var freqPlan := BestFreqPlan(freqChunk);
    BestFreqPlanValid(freqChunk);
    OrHeader(plan, freqPlan);
    out' := out + [BitOr(DocMode(plan), FreqMode(freqPlan) * Pow2(2))];
    out' := WriteVarint(out', docChunk[0]);
    out' := WriteDocChannel(out', plan, scratch);
    var docIdBytes := |out'| - docStart;
    var freqStart := |out'|;
    out' := WriteFreqChannel(out', freqPlan, freqChunk);
    stats := BlockedEncodeStats(1, docIdBytes, |out'| - freqStart, if freqPlan.AllOnes? then 1 else 0);
    assert out' == out + Block(docChunk, freqChunk);
    FreqChannelLength(freqPlan, freqChunk);
    OmittedExactly(freqChunk);
  }

  lemma OrHeader(plan: DocPlan, freqPlan: FreqPlan)
    ensures BitOr(DocMode(plan), FreqMode(freqPlan) * Pow2(2)) == DocMode(plan) + 4 * FreqMode(freqPlan) < 16
  {
    hide BitOr;
    assert Pow2(2) == 4;
    OrDisjoint(DocMode(plan), FreqMode(freqPlan), 2);
  }

  /** The frequency channel is absent exactly when every frequency is 1. */
  lemma OmittedExactly(freqs: seq<u32>)
    ensures BestFreqPlan(freqs).AllOnes? <==> forall i :: 0 <= i < |freqs| ==> freqs[i] == 1
  {
    hide MaxWidth, VarintCost, PackedLen;
    if BestFreqPlan(freqs).AllOnes? {
      BestFreqPlanValid(freqs);
    }
  }
}
