/** Nothing the decoder accepts is shorter than what the encoder writes for the same postings,
    though some of it is longer. */
module BlockMinimality {
  import opened BitOps
  import opened Bytes
  import opened Leb128
  import opened BitPacking
  import opened BlockFormat
  import opened BlockPlanning
  import opened BlockedPostings

  /** Bytes read, for a value read. */
  function Used<T>(s: seq<byte>, r: Parse<T>): int
    requires r.Ok?
  {
    |s| - |r.rest|
  }

  // Varints

  lemma {:induction false} GroupsShortest(s: seq<byte>, k: nat)
    requires k <= 4 && ReadGroups(s, k).Ok?
    ensures |Varint(ReadGroups(s, k).value)| <= Used(s, ReadGroups(s, k))
    decreases 4 - k
  {
    if s[0] >= 128 {
      GroupsShortest(s[1..], k + 1);
    }
  }

  lemma VarintShortest(s: seq<byte>)
    requires ReadVarint(s).Ok?
    ensures VarintLenForBits(BitWidth(ReadVarint(s).value)) <= Used(s, ReadVarint(s))
  {
    hide Varint, BitWidth, VarintLenForBits;
    GroupsShortest(s, 0);
    VarintLength(ReadVarint(s).value);
  }

  lemma {:induction false} VarintsShortest(s: seq<byte>, n: nat)
    requires ReadVarints(s, n).Ok?
    ensures VarintCost(ReadVarints(s, n).value) <= Used(s, ReadVarints(s, n))
    decreases n
  {
    hide BitWidth, VarintLenForBits, ReadVarint;
    if n > 0 {
      VarintShortest(s);
      VarintsShortest(ReadVarint(s).rest, n - 1);
    }
  }

  // Packed values

  lemma {:induction false} DigitsBelow(x: nat, count: nat, width: nat)
    ensures forall i :: 0 <= i < count ==> UnpackNumber(x, count, width)[i] < Pow2(width)
    decreases count
  {
    hide Pow2, Shr, Low;
    if count > 0 {
      DigitsBelow(Shr(x, width), count - 1, width);
    }
  }

  lemma UnpackedBelow(s: seq<byte>, n: nat, width: nat)
    requires width <= 32 && UnpackBits(s, n, width).Ok?
    ensures Used(s, UnpackBits(s, n, width)) == PackedLen(n, width)
    ensures forall i :: 0 <= i < n ==> UnpackBits(s, n, width).value[i] < Pow2(width)
  {
    hide Pow2, UnpackNumber, PackedLen;
    DigitsBelow(LittleEndian(s[..PackedLen(n, width)]), n, width);
  }

  // Exceptions

  lemma {:induction false} OneMoreException(deltas: seq<u32>, width: nat, i: nat, v: u32)
    requires i < |deltas| && !IsException(deltas[i], width) && IsException(v, width)
    ensures ExceptionCount(deltas[i := v], width) == ExceptionCount(deltas, width) + 1
    ensures ExceptionCost(deltas[i := v], width) == ExceptionCost(deltas, width) + 1 + VarintLenForBits(BitWidth(v))
  {
    hide IsException, BitWidth, VarintLenForBits;
    if i > 0 {
      OneMoreException(deltas[1..], width, i - 1, v);
      assert deltas[i := v][1..] == deltas[1..][i - 1 := v];
    } else {
      assert deltas[i := v][1..] == deltas[1..];
    }
  }

  /** The exceptions read are the exceptions of the result, and cost at least their bytes. */
  lemma {:induction false} ExceptionsShortest(s: seq<byte>, n: nat, deltas: seq<u32>, width: nat, from: nat)
    requires ReadExceptions(s, n, deltas, width, from).Ok?
    ensures var r := ReadExceptions(s, n, deltas, width, from);
      && ExceptionCount(r.value, width) == ExceptionCount(deltas, width) + n
      && ExceptionCost(r.value, width) <= ExceptionCost(deltas, width) + Used(s, r)
    decreases n
  {
    hide IsException, BitWidth, VarintLenForBits, ReadVarint, ExceptionCount, ExceptionCost;
    if n > 0 {
      var index: nat, rest := ReadByte(s).value, ReadByte(s).rest;
      var value, rest' := ReadVarint(rest).value, ReadVarint(rest).rest;
      VarintShortest(rest);
      ZeroIsPlain(width);
      OneMoreException(deltas, width, index, value);
      ExceptionsShortest(rest', n - 1, deltas[index := value], width, index + 1);
    }
  }

  lemma ZeroIsPlain(width: nat)
    ensures !IsException(0, width)
  {
  }

  lemma {:induction false} NoExceptions(deltas: seq<u32>, width: nat)
    requires forall i :: 0 <= i < |deltas| ==> deltas[i] < Pow2(width)
    ensures ExceptionCount(deltas, width) == 0 && ExceptionCost(deltas, width) == 0
  {
    hide Pow2;
    if deltas != [] {
      NoExceptions(deltas[1..], width);
    }
  }

  // Channels

  /** A plan whose bytes are no more than those a channel was read from. */
  ghost predicate Explains(plan: DocPlan, deltas: seq<u32>, used: int) {
    ValidDocPlan(plan, deltas) && PlanCost(plan, deltas) <= used
  }

  lemma PackedExplained(s: seq<byte>, n: nat) returns (plan: DocPlan)
    requires ReadPacked(s, n).Ok?
    ensures Explains(plan, ReadPacked(s, n).value, Used(s, ReadPacked(s, n)))
  {
    hide Pow2, UnpackBits, PackedLen;
    var width, rest := ReadWidth(s).value, ReadWidth(s).rest;
    UnpackedBelow(rest, n, width);
    plan := Packed(width);
  }

  lemma PatchedExplained(s: seq<byte>, n: nat) returns (plan: DocPlan)
    requires ReadPatched(s, n).Ok?
    ensures Explains(plan, ReadPatched(s, n).value, Used(s, ReadPatched(s, n)))
  {
    hide Pow2, UnpackBits, PackedLen, ReadExceptions, ExceptionCount, ExceptionCost;
    var width, rest := ReadWidth(s).value, ReadWidth(s).rest;
    var exceptions, rest' := ReadByte(rest).value, ReadByte(rest).rest;
    var base, rest'' := UnpackBits(rest', n, width).value, UnpackBits(rest', n, width).rest;
    UnpackedBelow(rest', n, width);
    NoExceptions(base, width);
    ExceptionsShortest(rest'', exceptions, base, width, 0);
    plan := Patched(width, exceptions);
  }

  lemma DocChannelExplained(s: seq<byte>, mode: nat, n: nat) returns (plan: DocPlan)
    requires ReadDocChannel(s, mode, n).Ok?
    ensures Explains(plan, ReadDocChannel(s, mode, n).value, Used(s, ReadDocChannel(s, mode, n)))
  {
    hide ReadVarints, ReadPacked, ReadPatched;
    if mode == 0 {
      VarintsShortest(s, n);
      plan := VarintDeltas;
    } else if mode == 1 {
      plan := PackedExplained(s, n);
    } else {
      plan := PatchedExplained(s, n);
    }
  }

  ghost predicate ExplainsFreqs(plan: FreqPlan, freqs: seq<u32>, used: int)
    requires freqs != []
  {
    ValidFreqPlan(plan, freqs) && FreqCost(plan, freqs) <= used
  }

  lemma FreqChannelExplained(s: seq<byte>, mode: nat, n: nat) returns (plan: FreqPlan)
    requires n > 0 && ReadFreqChannel(s, mode, n).Ok?
    ensures ExplainsFreqs(plan, ReadFreqChannel(s, mode, n).value, Used(s, ReadFreqChannel(s, mode, n)))
  {
    hide ReadVarints, ReadVarint, UnpackBits, PackedLen, Pow2, BitWidth, VarintLenForBits, VarintCost;
    if mode == 0 {
      plan := AllOnes;
    } else if mode == 1 {
      VarintShortest(s);
      plan := Constant;
    } else if mode == 2 {
      var width, rest := ReadWidth(s).value, ReadWidth(s).rest;
      UnpackedBelow(rest, n, width);
      plan := PackedFreqs(width);
    } else {
      VarintsShortest(s, n);
      plan := VarintFreqs;
    }
  }

  lemma {:induction false} AccumulatedDeltas(first: u32, deltas: seq<u32>)
    requires Accumulate(first, deltas).Success?
    ensures StrictlyIncreasing([first] + Accumulate(first, deltas).value)
    ensures Deltas([first] + Accumulate(first, deltas).value) == deltas
    decreases deltas
  {
    if deltas != [] {
      var value := first + deltas[0];
      AccumulatedDeltas(value, deltas[1..]);
      var ids := Accumulate(first, deltas).value;
      assert ([first] + ids)[1..] == ids == [value] + Accumulate(value, deltas[1..]).value;
    }
  }

  // Blocks

  lemma BlockCost(docs: seq<u32>, freqs: seq<u32>)
    requires ValidBlock(docs, freqs)
    ensures |Block(docs, freqs)| == 1 + VarintLenForBits(BitWidth(docs[0]))
      + PlanCost(BestPlan(Deltas(docs)), Deltas(docs)) + FreqCost(BestFreqPlan(freqs), freqs)
  {
    hide PlanCost, FreqCost, BestPlan, BestFreqPlan, DocChannel, FreqChannel, Deltas, Varint, BitWidth,
         VarintLenForBits;
    BestPlanValid(Deltas(docs));
    BestFreqPlanValid(freqs);
    DocChannelLength(BestPlan(Deltas(docs)), Deltas(docs));
    FreqChannelLength(BestFreqPlan(freqs), freqs);
    VarintLength(docs[0]);
  }

  lemma ChannelsShortest(s: seq<byte>, docMode: nat, freqMode: nat, first: u32, count: nat)
    requires 0 < count <= FOR_BLOCK_SIZE && DecodeChannels(s, docMode, freqMode, first, count).Ok?
    ensures var d := DecodeChannels(s, docMode, freqMode, first, count);
      && ValidBlock(d.value.0, d.value.1) && d.value.0[0] == first
      && PlanCost(BestPlan(Deltas(d.value.0)), Deltas(d.value.0))
         + FreqCost(BestFreqPlan(d.value.1), d.value.1) <= Used(s, d)
  {
    hide PlanCost, FreqCost, BestPlan, BestFreqPlan, Deltas, ReadDocChannel, ReadFreqChannel, Accumulate,
         ValidDocPlan, ValidFreqPlan, Rank;
    var deltas, rest := ReadDocChannel(s, docMode, count - 1).value, ReadDocChannel(s, docMode, count - 1).rest;
    AccumulatedDeltas(first, deltas);
    var plan := DocChannelExplained(s, docMode, count - 1);
    BestPlanOptimal(deltas, plan);
    var freqPlan := FreqChannelExplained(rest, freqMode, count);
    BestFreqPlanOptimal(ReadFreqChannel(rest, freqMode, count).value, freqPlan);
  }

  /** The encoder's block is the shortest the decoder accepts for the same postings: not only
      among the modes, but among all byte strings. */
  lemma ShortestAccepted(s: seq<byte>, count: nat)
    requires 0 < count <= FOR_BLOCK_SIZE && DecodeBlock(s, count).Ok?
    ensures var d := DecodeBlock(s, count);
      ValidBlock(d.value.0, d.value.1) && |Block(d.value.0, d.value.1)| <= Used(s, d)
  {
    hide DecodeChannels, PlanCost, FreqCost, BestPlan, BestFreqPlan, Deltas, Block, BitWidth, VarintLenForBits,
         ReadVarint;
    var header, rest := ReadByte(s).value, ReadByte(s).rest;
    var first, rest' := ReadVarint(rest).value, ReadVarint(rest).rest;
    VarintShortest(rest);
    ChannelsShortest(rest', header % 4, header / 4, first, count);
    var d := DecodeBlock(s, count);
    BlockCost(d.value.0, d.value.1);
  }

  lemma SplitPostings(docs: seq<u32>, freqs: seq<u32>, block: Postings, tail: Postings, b: nat)
    requires ValidPostings(docs, freqs) && docs == block.0 + tail.0 && freqs == block.1 + tail.1
    requires |block.0| == |block.1| == b == FirstCount(|docs|) && docs != []
    ensures ValidPostings(tail.0, tail.1) && ValidBlock(block.0, block.1)
    ensures Payload(docs, freqs) == Block(block.0, block.1) + Payload(tail.0, tail.1)
  {
    hide Block;
    assert docs[..b] == block.0 && docs[b..] == tail.0;
    assert freqs[..b] == block.1 && freqs[b..] == tail.1;
  }

  /** The same for whole payloads: among all byte strings that decode to a posting list, the
      encoder's is the shortest. */
  lemma {:induction false} ShortestPayload(s: seq<byte>, n: nat)
    requires DecodePostings(s, n).Ok? && StrictlyIncreasing(DecodePostings(s, n).value.0)
    ensures var d := DecodePostings(s, n);
      |Payload(d.value.0, d.value.1)| <= Used(s, d)
    decreases n
  {
    hide DecodeBlock, Block, StrictlyIncreasing;
    if n > 0 {
      var b := FirstCount(n);
      var block, rest := DecodeBlock(s, b).value, DecodeBlock(s, b).rest;
      var tail := DecodePostings(rest, n - b).value;
      var d := DecodePostings(s, n);
      SplitPostings(d.value.0, d.value.1, block, tail, b);
      ShortestAccepted(s, b);
      ShortestPayload(rest, n - b);
    }
  }

  /** Decoding and encoding again does not return the bytes in general: an overlong varint is
      accepted and comes back shorter. */
  lemma OverlongAccepted()
    ensures DecodeBlock([0, 0x80, 0], 1) == Ok(([0], [1]), [])
    ensures ValidBlock([0], [1]) && |Block([0], [1])| == 2
  {
    assert [0x80, 0][1..] == [0] && [0][1..] == [];
    assert ReadGroups([0], 1) == Ok(0, []);
    assert ReadVarint([0x80, 0]) == Ok(0, []);
    assert [0, 0x80, 0][1..] == [0x80, 0];
    assert Repeated(1, 1) == [1];
    assert ReadDocChannel([], 0, 0) == Ok([], []);
    assert Accumulate(0, []) == Success([]) && [0] + [] == [0];
    assert ReadFreqChannel([], 0, 1) == Ok([1], []);
    assert DecodeChannels([], 0, 0, 0, 1) == Ok(([0], [1]), []);
    assert Deltas([0]) == [];
    assert BestFreqPlan([1]) == AllOnes;
    assert BestPlan([]) == VarintDeltas;
  }
}
