/** The size of a payload against the list's own stream of delta varints, and lists on which
    blocks cost the most: where the bound is met, and where offsets pass 32 bits. */
module PayloadSize {
  import opened BitOps
  import opened Bytes
  import opened Leb128
  import opened BitPacking
  import opened BlockFormat
  import opened BlockPlanning
  import opened BlockedPostings
  import opened BlockMinimality
  import opened DeltaPostings

  // Blocks start again from an absolute id

  /** What the absolute first ids of the blocks cost over deltas from the id before. */
  function Restarts(previous: u32, docs: seq<u32>): int
    requires Follows(previous, false, docs)
    decreases |docs|
  {
    if docs == [] then 0
    else
      var b := FirstCount(|docs|);
      |Varint(docs[0])| - |Varint(docs[0] - previous)| + Restarts(docs[b - 1], docs[b..])
  }

  lemma {:induction false} VarintMonotonic(a: nat, b: nat)
    requires a <= b
    ensures |Varint(a)| <= |Varint(b)|
    decreases b
  {
    if a >= 128 {
      VarintMonotonic(a / 128, b / 128);
    }
  }

  lemma {:induction false} RestartsBound(previous: u32, docs: seq<u32>)
    requires Follows(previous, false, docs)
    ensures 0 <= Restarts(previous, docs) <= 4 * BlockCount(|docs|)
    ensures previous == 0 && docs != [] ==> Restarts(previous, docs) <= 4 * (BlockCount(|docs|) - 1)
    decreases |docs|
  {
    hide Varint;
    if docs != [] {
      var b := FirstCount(|docs|);
      BlockCountStep(|docs|);
      VarintMonotonic(docs[0] - previous, docs[0]);
      VarintLength(docs[0]);
      RestartsBound(docs[b - 1], docs[b..]);
    }
  }

  lemma {:induction false} VarintCostConcat(s: seq<u32>, t: seq<u32>)
    ensures VarintCost(s + t) == VarintCost(s) + VarintCost(t)
  {
    hide BitWidth, VarintLenForBits;
    if s == [] {
      assert s + t == t;
    } else {
      assert (s + t)[1..] == s[1..] + t;
      VarintCostConcat(s[1..], t);
    }
  }

  lemma OneMoreDelta(docs: seq<u32>)
    requires StrictlyIncreasing(docs) && |docs| >= 2
    ensures VarintCost(Deltas(docs)) == |Varint(docs[1] - docs[0])| + VarintCost(Deltas(docs[1..]))
  {
    hide Varint, BitWidth, VarintLenForBits;
    var rest := Deltas(docs[1..]);
    assert Deltas(docs) == [docs[1] - docs[0]] + rest;
    assert ([docs[1] - docs[0]] + rest)[1..] == rest;
    VarintLength(docs[1] - docs[0]);
  }

  lemma OneDelta(previous: u32, docs: seq<u32>)
    requires Follows(previous, false, docs) && docs != []
    ensures |DeltaBytes(previous, docs)| == |Varint(docs[0] - previous)| + |DeltaBytes(docs[0], docs[1..])|
  {
    hide Varint;
  }

  lemma NoDeltas(docs: seq<u32>)
    requires docs != []
    ensures StrictlyIncreasing(docs[..1]) && VarintCost(Deltas(docs[..1])) == 0
  {
  }

  /** The stream over a chunk and what follows it. */
  lemma {:induction false} ChunkStream(previous: u32, docs: seq<u32>, b: nat)
    requires Follows(previous, false, docs) && 0 < b <= |docs|
    ensures |DeltaBytes(previous, docs)|
         == |Varint(docs[0] - previous)| + VarintCost(Deltas(docs[..b])) + |DeltaBytes(docs[b - 1], docs[b..])|
    decreases b
  {
    hide Varint, VarintCost, Deltas, DeltaBytes;
    OneDelta(previous, docs);
    if b == 1 {
      NoDeltas(docs);
    } else {
      ChunkStream(docs[0], docs[1..], b - 1);
      assert docs[1..][..b - 1] == docs[..b][1..] && docs[1..][b - 1..] == docs[b..];
      OneMoreDelta(docs[..b]);
    }
  }

  lemma {:induction false} PlainIsStream(previous: u32, docs: seq<u32>, freqs: seq<u32>)
    requires ValidPostings(docs, freqs) && Follows(previous, false, docs)
    ensures PlainSize(docs, freqs) == |DeltaBytes(previous, docs)| + VarintCost(freqs) + Restarts(previous, docs)
    decreases |docs|
  {
    hide Varint, VarintCost, Deltas;
    if docs == [] {
      NothingCosts();
    } else {
      var b := FirstCount(|docs|);
      ChunkStream(previous, docs, b);
      VarintCostConcat(freqs[..b], freqs[b..]);
      assert freqs == freqs[..b] + freqs[b..];
      PlainIsStream(docs[b - 1], docs[b..], freqs[b..]);
    }
  }

  lemma NothingCosts()
    ensures VarintCost([]) == 0
  {
  }

  /** The list as one stream of varints: its deltas, then its frequencies. */
  function Stream(docs: seq<u32>, freqs: seq<u32>): seq<byte>
    requires ValidPostings(docs, freqs)
  {
    DeltaBytes(0, docs) + Varints(freqs)
  }

  /** A payload is at most the stream, one header byte per block, and what the absolute first
      ids of the later blocks add: four bytes each at most. */
  lemma PayloadWithinStream(docs: seq<u32>, freqs: seq<u32>)
    requires ValidPostings(docs, freqs)
    ensures |Payload(docs, freqs)| <= |Stream(docs, freqs)| + BlockCount(|docs|) + Restarts(0, docs)
    ensures |Payload(docs, freqs)| <= |Stream(docs, freqs)| + 5 * BlockCount(|docs|)
    ensures docs != [] ==> |Payload(docs, freqs)| + 4 <= |Stream(docs, freqs)| + 5 * BlockCount(|docs|)
  {
    hide Payload, PlainSize, Restarts, DeltaBytes, BlockCount;
    PayloadWithinPlain(docs, freqs);
    PlainIsStream(0, docs, freqs);
    VarintsLength(freqs);
    RestartsBound(0, docs);
  }

  // A list on which blocks save nothing

  /** One-byte and two-byte values in turn: dearer packed than as varints. */
  function Mixed(n: nat): (r: seq<u32>)
    ensures |r| == n
    ensures forall i :: 0 <= i < n ==> r[i] == 100 || r[i] == 10000
  {
    if n == 0 then [] else [if n % 2 == 1 then 100 else 10000] + Mixed(n - 1)
  }

  lemma MixedWidths(w: nat)
    ensures 100 < Pow2(w) <==> w >= 7
    ensures 10000 < Pow2(w) <==> w >= 14
    ensures VarintLenForBits(BitWidth(100)) == 1 && VarintLenForBits(BitWidth(10000)) == 2
  {
    hide BitWidth, Pow2;
    Pow2Values();
    PowerSteps();
    BitWidthBound(100, 6);
    BitWidthBound(100, 7);
    BitWidthBound(10000, 13);
    BitWidthBound(10000, 14);
    BitWidthBound(100, w);
    BitWidthBound(10000, w);
  }

  lemma PowerSteps()
    ensures Pow2(6) == 64 && Pow2(13) == 0x2000
  {
    Pow2Add(6, 7);
  }

  lemma {:induction false} MixedCosts(n: nat, w: nat)
    ensures VarintCost(Mixed(n)) == n + n / 2
    ensures w < 7 ==> ExceptionCost(Mixed(n), w) >= n + n / 2
    ensures 7 <= w < 14 ==> ExceptionCost(Mixed(n), w) == 3 * (n / 2)
  {
    hide BitWidth, VarintLenForBits, Pow2;
    if n > 0 {
      MixedCosts(n - 1, w);
      MixedWidths(w);
      assert Mixed(n)[1..] == Mixed(n - 1);
    }
  }

  lemma MixedPackedLen(w: nat)
    ensures w >= 7 ==> PackedLen(127, w) >= 112
    ensures w >= 14 ==> PackedLen(127, w) >= 223 && PackedLen(128, w) >= 224
  {
    if w >= 7 {
      PackedLenMonotonic(127, 7, w);
    }
    if w >= 14 {
      PackedLenMonotonic(127, 14, w);
      PackedLenMonotonic(128, 14, w);
    }
  }

  /** The best plan for such deltas is no cheaper than their varints. */
  lemma MixedDeltasSaveNothing()
    ensures PlanCost(BestPlan(Mixed(127)), Mixed(127)) >= VarintCost(Mixed(127))
  {
    hide BestPlan, Mixed, Pow2, PackedLen, ExceptionCount, ExceptionCost, VarintCost;
    var deltas := Mixed(127);
    BestPlanValid(deltas);
    MixedHasBoth(127);
    match BestPlan(deltas)
    case VarintDeltas =>
    case Packed(width) =>
      MixedWidths(width);
      MixedPackedLen(width);
      MixedCosts(127, width);
    case Patched(width, exceptions) =>
      MixedWidths(width);
      MixedPackedLen(width);
      MixedCosts(127, width);
      if width >= 14 {
        NoExceptions(deltas, width);
      }
  }

  lemma MixedHasBoth(n: nat)
    requires n >= 2
    ensures 100 in Mixed(n) && 10000 in Mixed(n)
    ensures exists i, j :: 0 <= i < n && 0 <= j < n && Mixed(n)[i] == 100 && Mixed(n)[j] == 10000
  {
    var m := Mixed(n);
    assert m[1] == Mixed(n - 1)[0];
    if n % 2 == 1 {
      assert m[0] == 100 && m[1] == 10000;
    } else {
      assert m[1] == 100 && m[0] == 10000;
    }
  }

  lemma MixedFreqsSaveNothing()
    ensures FreqCost(BestFreqPlan(Mixed(128)), Mixed(128)) >= VarintCost(Mixed(128))
  {
    hide BestFreqPlan, Mixed, Pow2, PackedLen, VarintCost;
    var freqs := Mixed(128);
    BestFreqPlanValid(freqs);
    MixedHasBoth(128);
    match BestFreqPlan(freqs)
    case VarintFreqs =>
    case PackedFreqs(width) =>
      MixedWidths(width);
      MixedPackedLen(width);
      MixedCosts(128, width);
  }

  lemma {:induction false} MixedIds(first: u32, n: nat)
    requires first + 10000 * n < U32_LIMIT
    ensures Accumulate(first, Mixed(n)).Success?
    ensures var ids := Accumulate(first, Mixed(n)).value;
      |ids| == n && (n > 0 ==> first < ids[n - 1] <= first + 10000 * n)
    decreases n
  {
    if n > 0 {
      var value := first + Mixed(n)[0];
      assert Mixed(n)[1..] == Mixed(n - 1);
      MixedIds(value, n - 1);
    }
  }

  lemma PlainBlock(docs: seq<u32>, freqs: seq<u32>)
    requires ValidBlock(docs, freqs)
    requires PlanCost(BestPlan(Deltas(docs)), Deltas(docs)) >= VarintCost(Deltas(docs))
    requires FreqCost(BestFreqPlan(freqs), freqs) >= VarintCost(freqs)
    ensures |Block(docs, freqs)| >= PlainLength(docs, freqs) + 1
  {
    hide PlanCost, FreqCost, BestPlan, BestFreqPlan, Deltas, Block, VarintCost, Varint, BitWidth, VarintLenForBits;
    BlockCost(docs, freqs);
    VarintLength(docs[0]);
  }

  lemma SingleSavesNothing(id: u32)
    ensures PlanCost(BestPlan(Deltas([id])), Deltas([id])) >= VarintCost(Deltas([id]))
    ensures FreqCost(BestFreqPlan([2]), [2]) >= VarintCost([2])
  {
    BestFreqPlanValid([2]);
    hide BitWidth, VarintLenForBits, Pow2;
    assert [2][0] == 2;
    assert BestFreqPlan([2]) == Constant;
    assert VarintCost([2]) == VarintLenForBits(BitWidth(2)) + VarintCost([2][1..]);
  }

  /** The bound is met: on this list of 129 postings the two blocks save nothing, so the
      absolute first id of the second puts the payload above the stream and its headers. */
  lemma RestartsCount() returns (docs: seq<u32>, freqs: seq<u32>)
    ensures ValidPostings(docs, freqs) && |docs| == 129 && BlockCount(|docs|) == 2
    ensures Restarts(0, docs) == 4
    ensures |Payload(docs, freqs)| == |Stream(docs, freqs)| + BlockCount(|docs|) + Restarts(0, docs)
  {
    var first: u32 := 0x1000_0000;
    MixedIds(first, 127);
    var ids := Accumulate(first, Mixed(127)).value;
    AccumulatedDeltas(first, Mixed(127));
    var head, last := [first] + ids, ids[126] + 1;
    docs, freqs := head + [last], Mixed(128) + [2];
    RestartsCountOn(head, last, Mixed(128));
  }

  lemma RestartsCountOn(head: seq<u32>, last: u32, headFreqs: seq<u32>)
    requires |head| == |headFreqs| == 128 && StrictlyIncreasing(head) && headFreqs == Mixed(128)
    requires Deltas(head) == Mixed(127) && 0x1000_0000 == head[0] && last - head[127] == 1
    ensures var docs, freqs := head + [last], headFreqs + [2];
      && ValidPostings(docs, freqs) && BlockCount(|docs|) == 2 && Restarts(0, docs) == 4
      && |Payload(docs, freqs)| == |Stream(docs, freqs)| + BlockCount(|docs|) + Restarts(0, docs)
  {
    hide Mixed, Deltas, Block, Payload, PlanCost, FreqCost, BestPlan, BestFreqPlan, PlainSize, PlainLength, Restarts,
         Stream, StrictlyIncreasing;
    var docs, freqs := head + [last], headFreqs + [2];
    IncreasingSnoc(head, last);
    MixedDeltasSaveNothing();
    MixedFreqsSaveNothing();
    PlainBlock(head, headFreqs);
    SingleSavesNothing(last);
    PlainBlock([last], [2]);
    TwoBlocks(docs, freqs, head, headFreqs, last);
    PayloadWithinStream(docs, freqs);
    PlainIsStream(0, docs, freqs);
    VarintsLength(freqs);
    StreamLength(docs, freqs);
  }

  lemma IncreasingSnoc(head: seq<u32>, last: u32)
    requires StrictlyIncreasing(head) && head != [] && last > head[|head| - 1]
    ensures StrictlyIncreasing(head + [last]) && StrictlyIncreasing([last])
  {
  }

  lemma StreamLength(docs: seq<u32>, freqs: seq<u32>)
    requires ValidPostings(docs, freqs)
    ensures |Stream(docs, freqs)| == |DeltaBytes(0, docs)| + |Varints(freqs)|
  {
  }

  lemma TwoBlocks(docs: seq<u32>, freqs: seq<u32>, head: seq<u32>, headFreqs: seq<u32>, last: u32)
    requires |head| == |headFreqs| == 128 && StrictlyIncreasing(docs) && StrictlyIncreasing(head)
    requires docs == head + [last] && freqs == headFreqs + [2]
    requires head[0] == 0x1000_0000 && last - head[127] == 1
    ensures ValidPostings(docs, freqs) && BlockCount(|docs|) == 2
    ensures ValidBlock(head, headFreqs) && ValidBlock([last], [2])
    ensures |Payload(docs, freqs)| == |Block(head, headFreqs)| + |Block([last], [2])|
    ensures PlainSize(docs, freqs) == PlainLength(head, headFreqs) + PlainLength([last], [2])
    ensures Restarts(0, docs) == 4
  {
    hide Block, PlainLength, Varint;
    assert docs[..128] == head && docs[128..] == [last] && freqs[..128] == headFreqs && freqs[128..] == [2];
    assert [last][..1] == [last] && [last][1..] == [] && [2][..1] == [2] && [2][1..] == [];
    assert Payload([last], [2]) == Block([last], [2]) + Payload([], []);
    assert PlainSize([last], [2]) == PlainLength([last], [2]) + PlainSize([], []);
    assert Restarts(head[127], [last]) == |Varint(last)| - |Varint(1)|;
    LongVarint(last);
  }

  lemma LongVarint(v: u32)
    requires v >= 0x1000_0000
    ensures |Varint(v)| == 5 && |Varint(1)| == 1
  {
    hide BitWidth, Pow2;
    Pow2Values();
    VarintLength(v);
    BitWidthBound(v, 28);
  }

  // A list whose offsets pass 32 bits

  /** Frequencies that differ, one of them of eight bits, in every block. */
  ghost predicate Uneven(freqs: seq<u32>) {
    forall i :: 0 <= i < |freqs| ==> freqs[i] == if i % 2 == 0 then 0 else 255
  }

  lemma {:induction false} VarintCostAtLeast(values: seq<u32>)
    ensures VarintCost(values) >= |values|
  {
    hide BitWidth, VarintLenForBits;
    if values != [] {
      VarintCostAtLeast(values[1..]);
    }
  }

  lemma UnevenFreqsCost(freqs: seq<u32>)
    requires Uneven(freqs) && |freqs| == FOR_BLOCK_SIZE
    ensures FreqCost(BestFreqPlan(freqs), freqs) >= 128
  {
    hide BestFreqPlan, Pow2, PackedLen, VarintCost;
    BestFreqPlanValid(freqs);
    assert freqs[0] == 0 && freqs[1] == 255;
    match BestFreqPlan(freqs)
    case VarintFreqs => VarintCostAtLeast(freqs);
    case PackedFreqs(width) => EightBits(width);
  }

  lemma EightBits(width: nat)
    requires 255 < Pow2(width)
    ensures PackedLen(128, width) >= 128
  {
    hide Pow2;
    Pow2Values();
    if width < 8 {
      Pow2Monotonic(width, 7);
    }
    PackedLenMonotonic(128, 8, width);
  }

  lemma LongBlock(docs: seq<u32>, freqs: seq<u32>)
    requires ValidBlock(docs, freqs) && |docs| == FOR_BLOCK_SIZE && Uneven(freqs)
    ensures |Block(docs, freqs)| >= 129
  {
    hide PlanCost, FreqCost, BestPlan, BestFreqPlan, Deltas, Block, BitWidth, VarintLenForBits;
    BlockCost(docs, freqs);
    UnevenFreqsCost(freqs);
  }

  /** Every block before the last is longer than it has postings. */
  lemma {:induction false} StartsRunAhead(docs: seq<u32>, freqs: seq<u32>, k: nat)
    requires ValidPostings(docs, freqs) && Uneven(freqs) && k < BlockCount(|docs|)
    ensures BlockStart(docs, freqs, k) >= 129 * k
    decreases k
  {
    hide Block;
    if k > 0 {
      var b := FirstCount(|docs|);
      BlockCountStep(|docs|);
      LongBlock(docs[..b], freqs[..b]);
      StartsRunAhead(docs[b..], freqs[b..], k - 1);
    }
  }

  /** Postings of every id whose last block starts past 2^32, so their offsets, cut to 32
      bits, do not increase. */
  lemma OffsetsCanWrap() returns (docs: seq<u32>, freqs: seq<u32>)
    ensures ValidPostings(docs, freqs) && docs != [] && BlockCount(|docs|) > 0
    ensures BlockStart(docs, freqs, BlockCount(|docs|) - 1) >= U32_LIMIT
    ensures !OffsetsIncrease(Directory(docs, freqs, 0))
  {
    hide BlockStart, Directory;
    docs := AllIds();
    freqs := seq(U32_LIMIT, i requires 0 <= i < U32_LIMIT => if i % 2 == 0 then 0 else 255);
    StartsRunAhead(docs, freqs, BlockCount(|docs|) - 1);
    OffsetsWrap(docs, freqs);
  }
}
