/** The choice of channel modes by exact cost: what each mode costs, that the cost is the
    number of bytes written, and that no other valid choice writes a shorter block. */
module BlockPlanning {
  import opened BitOps
  import opened Bytes
  import opened Leb128
  import opened BitPacking
  import opened BlockFormat

  function Max(a: nat, b: nat): nat {
    if a < b then b else a
  }

  function MaxWidth(values: seq<u32>): nat {
    if values == [] then 0 else Max(BitWidth(values[0]), MaxWidth(values[1..]))
  }

  /** Bytes of the values written one varint each. */
  function VarintCost(values: seq<u32>): nat {
    if values == [] then 0 else VarintLenForBits(BitWidth(values[0])) + VarintCost(values[1..])
  }

  /** Bytes of the exceptions above `width`: a position byte and a whole varint each. */
  function ExceptionCost(deltas: seq<u32>, width: nat): nat {
    if deltas == [] then 0
    else (if IsException(deltas[0], width) then 1 + VarintLenForBits(BitWidth(deltas[0])) else 0)
         + ExceptionCost(deltas[1..], width)
  }

  function PlanCost(plan: DocPlan, deltas: seq<u32>): nat {
    match plan
    case VarintDeltas => VarintCost(deltas)
    case Packed(width) => 1 + PackedLen(|deltas|, width)
    case Patched(width, _) => 2 + PackedLen(|deltas|, width) + ExceptionCost(deltas, width)
  }

  /** The best of the varint mode and the patched widths below `limit`, scanned upwards and
      replaced only by a strictly cheaper one. */
  function BestBelow(deltas: seq<u32>, limit: nat): DocPlan {
    if limit <= 1 then VarintDeltas
    else
      var best := BestBelow(deltas, limit - 1);
      var next := Patched(limit - 1, ExceptionCount(deltas, limit - 1));
      if PlanCost(next, deltas) < PlanCost(best, deltas) then next else best
  }

  function BestPlan(deltas: seq<u32>): DocPlan {
    var widthMax := MaxWidth(deltas);
    if widthMax == 0 then VarintDeltas
    else
      var best := BestBelow(deltas, widthMax);
      if PlanCost(Packed(widthMax), deltas) < PlanCost(best, deltas) then Packed(widthMax) else best
  }

  function FreqWidth(freqs: seq<u32>): nat {
    Max(MaxWidth(freqs), 1)
  }

  function BestFreqPlan(freqs: seq<u32>): FreqPlan {
    if forall freq | freq in freqs :: freq == 1 then AllOnes
    else if forall i | 1 <= i < |freqs| :: freqs[i - 1] == freqs[i] then Constant
    else if VarintCost(freqs) < 1 + PackedLen(|freqs|, FreqWidth(freqs)) then VarintFreqs
    else PackedFreqs(FreqWidth(freqs))
  }

  // The plans chosen are valid

  lemma {:induction false} MaxWidthBounds(values: seq<u32>, k: nat)
    ensures MaxWidth(values) <= k <==> forall i :: 0 <= i < |values| ==> values[i] < Pow2(k)
  {
    hide Pow2, BitWidth;
    if values != [] {
      MaxWidthBounds(values[1..], k);
      BitWidthBound(values[0], k);
      assert values == [values[0]] + values[1..];
    }
  }

  lemma MaxWidthU32(values: seq<u32>)
    ensures MaxWidth(values) <= 32
  {
    hide MaxWidth;
    Pow2Values();
    MaxWidthBounds(values, 32);
  }

  lemma {:induction false} SomeException(deltas: seq<u32>, width: nat)
    ensures ExceptionCount(deltas, width) >= 1 <==> MaxWidth(deltas) > width
  {
    hide Pow2, BitWidth;
    if deltas != [] {
      SomeException(deltas[1..], width);
      BitWidthBound(deltas[0], width);
    }
  }

  lemma {:induction false} BestBelowValid(deltas: seq<u32>, limit: nat)
    requires limit <= MaxWidth(deltas)
    ensures ValidDocPlan(BestBelow(deltas, limit), deltas)
  {
    hide MaxWidth, ExceptionCount, PlanCost;
    MaxWidthU32(deltas);
    if limit > 1 {
      BestBelowValid(deltas, limit - 1);
      SomeException(deltas, limit - 1);
    }
  }

  lemma BestPlanValid(deltas: seq<u32>)
    ensures ValidDocPlan(BestPlan(deltas), deltas)
  {
    hide MaxWidth, PlanCost, BestBelow, Pow2;
    var m := MaxWidth(deltas);
    MaxWidthU32(deltas);
    MaxWidthBounds(deltas, m);
    if m > 0 {
      BestBelowValid(deltas, m);
    }
  }

  lemma {:induction false} NeighboursEqual(freqs: seq<u32>, i: nat)
    requires i < |freqs| && forall j | 1 <= j < |freqs| :: freqs[j - 1] == freqs[j]
    ensures freqs[i] == freqs[0]
  {
    if i > 0 {
      NeighboursEqual(freqs, i - 1);
      assert freqs[i - 1] == freqs[i];
    }
  }

  lemma BestFreqPlanValid(freqs: seq<u32>)
    ensures ValidFreqPlan(BestFreqPlan(freqs), freqs)
  {
    hide MaxWidth, VarintCost, PackedLen, Pow2;
    match BestFreqPlan(freqs)
    case AllOnes =>
      forall i | 0 <= i < |freqs| ensures freqs[i] == 1 { assert freqs[i] in freqs; }
    case Constant =>
      forall i | 0 <= i < |freqs| ensures freqs[i] == freqs[0] { NeighboursEqual(freqs, i); }
    case PackedFreqs(width) =>
      MaxWidthU32(freqs);
      MaxWidthBounds(freqs, width);
    case VarintFreqs =>
  }

  // A cost is a number of bytes

  lemma {:induction false} VarintsLength(values: seq<u32>)
    ensures |Varints(values)| == VarintCost(values)
  {
    hide Varint, BitWidth, VarintLenForBits;
    if values != [] {
      VarintLength(values[0]);
      VarintsLength(values[1..]);
    }
  }

  lemma {:induction false} ExceptionListLength(deltas: seq<u32>, width: nat, at: nat)
    requires at + |deltas| <= 256
    ensures |ExceptionList(deltas, width, at)| == ExceptionCost(deltas, width)
  {
    hide Varint, BitWidth, VarintLenForBits, IsException;
    if deltas != [] {
      VarintLength(deltas[0]);
      ExceptionListLength(deltas[1..], width, at + 1);
    }
  }

  /** The cost the planner compares is exactly what the chosen mode then writes. */
  lemma DocChannelLength(plan: DocPlan, deltas: seq<u32>)
    requires |deltas| < FOR_BLOCK_SIZE && ValidDocPlan(plan, deltas)
    ensures |DocChannel(plan, deltas)| == PlanCost(plan, deltas)
  {
    hide Varints, PackBits, ExceptionList, PackedLen;
    VarintsLength(deltas);
    if plan.Patched? {
      ExceptionListLength(deltas, plan.width, 0);
    }
  }

  // No valid plan is cheaper

  /** Where a plan stands in the order the planner tries them. */
  function Rank(plan: DocPlan): nat {
    match plan
    case VarintDeltas => 0
    case Patched(width, _) => width
    case Packed(width) => MAX_PACKED_WIDTH + width
  }

  /** Strictly cheaper, or as cheap and no later in the order of trial. */
  predicate NoWorse(p: DocPlan, q: DocPlan, deltas: seq<u32>) {
    PlanCost(p, deltas) < PlanCost(q, deltas)
    || (PlanCost(p, deltas) == PlanCost(q, deltas) && Rank(p) <= Rank(q))
  }

  lemma {:induction false} BestBelowOptimal(deltas: seq<u32>, limit: nat, width: nat)
    requires width < limit
    ensures var other := if width == 0 then VarintDeltas else Patched(width, ExceptionCount(deltas, width));
            NoWorse(BestBelow(deltas, limit), other, deltas)
    ensures Rank(BestBelow(deltas, limit)) < limit
  {
    hide PlanCost, ExceptionCount;
    if limit > 1 {
      BestBelowOptimal(deltas, limit - 1, if width < limit - 1 then width else 0);
    }
  }

  lemma PackedLenMonotonic(count: nat, a: nat, b: nat)
    requires a <= b
    ensures PackedLen(count, a) <= PackedLen(count, b)
  {
    MulMonotonic(count, a, b);
  }

  /** The plan chosen is the cheapest valid plan, and the first of the cheapest in the order
      of trial: the choice is canonical. */
  lemma BestPlanOptimal(deltas: seq<u32>, other: DocPlan)
    requires forall i :: 0 <= i < |deltas| ==> deltas[i] >= 1
    requires ValidDocPlan(other, deltas)
    ensures NoWorse(BestPlan(deltas), other, deltas)
  {
    hide BestBelow, ExceptionCount, ExceptionCost, PackedLen, Pow2, BitWidth;
    var m := MaxWidth(deltas);
    MaxWidthU32(deltas);
    if m == 0 {
      assert deltas == [];
    } else {
      match other
      case VarintDeltas => BestBelowOptimal(deltas, m, 0);
      case Patched(width, _) =>
        SomeException(deltas, width);
        BestBelowOptimal(deltas, m, width);
      case Packed(width) =>
        MaxWidthBounds(deltas, width);
        PackedLenMonotonic(|deltas|, m, width);
        BestBelowOptimal(deltas, m, 0);
    }
  }

  function FreqCost(plan: FreqPlan, freqs: seq<u32>): nat
    requires freqs != []
  {
    match plan
    case AllOnes => 0
    case Constant => VarintLenForBits(BitWidth(freqs[0]))
    case PackedFreqs(width) => 1 + PackedLen(|freqs|, width)
    case VarintFreqs => VarintCost(freqs)
  }

  lemma FreqChannelLength(plan: FreqPlan, freqs: seq<u32>)
    requires freqs != [] && ValidFreqPlan(plan, freqs)
    ensures |FreqChannel(plan, freqs)| == FreqCost(plan, freqs)
  {
    hide Varint, Varints, PackBits, PackedLen, BitWidth, VarintLenForBits, Pow2;
    VarintsLength(freqs);
    VarintLength(freqs[0]);
  }

  /** A varint is never longer than a width byte and the value packed. */
  lemma VarintWithinPacked(v: u32, count: nat, width: nat)
    requires count >= 1 && v < Pow2(width)
    ensures VarintLenForBits(BitWidth(v)) <= 1 + PackedLen(count, width)
  {
    hide Pow2, BitWidth;
    var b := BitWidth(v);
    BitWidthBound(v, width);
    Pow2Values();
    BitWidthBound(v, 32);
    MulMonotonic(width, 1, count);
  }

  lemma BestFreqPlanOptimal(freqs: seq<u32>, other: FreqPlan)
    requires freqs != [] && ValidFreqPlan(other, freqs)
    ensures FreqCost(BestFreqPlan(freqs), freqs) <= FreqCost(other, freqs)
  {
    hide Pow2, BitWidth, PackedLen, MaxWidth, VarintLenForBits;
    var best := BestFreqPlan(freqs);
    BestFreqPlanValid(freqs);
    match other
    case AllOnes => assert forall freq | freq in freqs :: freq == 1;
    case Constant =>
      assert freqs[0] in freqs;
      assert best == Constant;
    case PackedFreqs(width) =>
      MaxWidthBounds(freqs, width);
      PackedLenMonotonic(|freqs|, FreqWidth(freqs), width);
      VarintWithinPacked(freqs[0], |freqs|, width);
    case VarintFreqs =>
  }

  // Blocks

  /** The bytes the encoder writes for a block. */
  function Block(docs: seq<u32>, freqs: seq<u32>): seq<byte>
    requires ValidBlock(docs, freqs)
  {
    BestPlanValid(Deltas(docs));
    BestFreqPlanValid(freqs);
    BlockWith(BestPlan(Deltas(docs)), BestFreqPlan(freqs), docs, freqs)
  }

  /** No valid choice of channel modes writes the block in fewer bytes. */
  lemma BlockIsShortest(docs: seq<u32>, freqs: seq<u32>, plan: DocPlan, freqPlan: FreqPlan)
    requires ValidBlock(docs, freqs)
    requires ValidDocPlan(plan, Deltas(docs)) && ValidFreqPlan(freqPlan, freqs)
    ensures |Block(docs, freqs)| <= |BlockWith(plan, freqPlan, docs, freqs)|
  {
    hide ValidDocPlan, ValidFreqPlan, PlanCost, FreqCost, BestPlan, BestFreqPlan, DocChannel, FreqChannel, Deltas,
         Varint, Rank;
    var deltas := Deltas(docs);
    BestPlanValid(deltas);
    BestFreqPlanValid(freqs);
    DocChannelLength(plan, deltas);
    DocChannelLength(BestPlan(deltas), deltas);
    BestPlanOptimal(deltas, plan);
    FreqChannelLength(freqPlan, freqs);
    FreqChannelLength(BestFreqPlan(freqs), freqs);
    BestFreqPlanOptimal(freqs, freqPlan);
  }

  /** Size of the postings as plain varints: the first id, the deltas, the frequencies. */
  function PlainLength(docs: seq<u32>, freqs: seq<u32>): nat
    requires ValidBlock(docs, freqs)
  {
    |Varint(docs[0])| + VarintCost(Deltas(docs)) + VarintCost(freqs)
  }

  /** A block is never longer than its plain varints but for the header byte. */
  lemma BlockWithinPlain(docs: seq<u32>, freqs: seq<u32>)
    requires ValidBlock(docs, freqs)
    ensures 1 <= |Block(docs, freqs)| <= PlainLength(docs, freqs) + 1
  {
    hide Deltas, Varint, Varints, VarintCost, Block;
    BlockIsShortest(docs, freqs, VarintDeltas, VarintFreqs);
    VarintsLength(Deltas(docs));
    VarintsLength(freqs);
    BlockNonempty(docs, freqs);
  }

  lemma BlockNonempty(docs: seq<u32>, freqs: seq<u32>)
    requires ValidBlock(docs, freqs)
    ensures |Block(docs, freqs)| >= 1
  {
    hide DocChannel, FreqChannel;
  }

  lemma {:induction false} VarintCostBound(values: seq<u32>)
    ensures VarintCost(values) <= 5 * |values|
  {
    if values != [] {
      VarintCostBound(values[1..]);
    }
  }
}
