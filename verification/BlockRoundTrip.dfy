/** Every way of writing a block reads back as the postings written, and reading a block
    depends on nothing but the bytes it consumes. */
module BlockRoundTrip {
  import opened Sequences
  import opened BitOps
  import opened Bytes
  import opened Leb128
  import opened BitPacking
  import opened BlockFormat

  // Round trip

  lemma ReadByteOf(b: byte, t: seq<byte>)
    ensures ReadByte([b] + t) == Ok(b, t)
  {
    assert ([b] + t)[1..] == t;
  }

  lemma {:induction false} VarintsRoundTrip(values: seq<u32>, t: seq<byte>)
    ensures ReadVarints(Varints(values) + t, |values|) == Ok(values, t)
  {
    hide ReadVarint, Varint;
    if values == [] {
      assert Varints(values) + t == t;
    } else {
      var tail := Varints(values[1..]) + t;
      assert Varints(values) + t == Varint(values[0]) + tail;
      VarintRoundTrip(values[0], tail);
      VarintsRoundTrip(values[1..], t);
      assert [values[0]] + values[1..] == values;
    }
  }

  lemma PackedRoundTrip(values: seq<u32>, width: nat, t: seq<byte>)
    requires 1 <= width <= MAX_PACKED_WIDTH
    requires forall i :: 0 <= i < |values| ==> values[i] < Pow2(width)
    ensures ReadPacked([width] + PackBits(values, width) + t, |values|) == Ok(values, t)
  {
    hide PackBits, UnpackBits;
    assert [width] + PackBits(values, width) + t == [width] + (PackBits(values, width) + t);
    ReadByteOf(width, PackBits(values, width) + t);
    PackRoundTrip(values, width, t);
  }

  /** The deltas with the exceptions from position `i` on still zeroed. */
  function Restored(deltas: seq<u32>, width: nat, i: nat): (r: seq<u32>)
    requires i <= |deltas|
    ensures |r| == |deltas|
  {
    deltas[..i] + Base(deltas[i..], width)
  }

  lemma RestoredStep(deltas: seq<u32>, width: nat, i: nat)
    requires i < |deltas|
    ensures Restored(deltas, width, i)[i] == if IsException(deltas[i], width) then 0 else deltas[i]
    ensures Restored(deltas, width, i)[i := deltas[i]] == Restored(deltas, width, i + 1)
  {
    hide IsException;
    assert deltas[i..][1..] == deltas[i + 1..];
  }

  lemma ExceptionListStep(deltas: seq<u32>, width: nat, i: nat, t: seq<byte>)
    requires i < |deltas| <= 256
    ensures var list := ExceptionList(deltas[i..], width, i) + t;
      var rest := ExceptionList(deltas[i + 1..], width, i + 1) + t;
      list == if IsException(deltas[i], width) then [i] + (Varint(deltas[i]) + rest) else rest
    ensures ExceptionCount(deltas[i..], width)
         == ExceptionCount(deltas[i + 1..], width) + if IsException(deltas[i], width) then 1 else 0
  {
    hide Varint, IsException;
    assert deltas[i..][1..] == deltas[i + 1..];
    var d, rest := deltas[i], ExceptionList(deltas[i + 1..], width, i + 1);
    assert [i] + (Varint(d) + rest) + t == [i] + (Varint(d) + (rest + t));
  }

  lemma {:induction false} ExceptionsRoundTrip(deltas: seq<u32>, width: nat, i: nat, from: nat, t: seq<byte>)
    requires |deltas| <= 256 && from <= i <= |deltas|
    ensures ReadExceptions(ExceptionList(deltas[i..], width, i) + t, ExceptionCount(deltas[i..], width),
                           Restored(deltas, width, i), width, from) == Ok(deltas, t)
    decreases |deltas| - i
  {
    hide ReadVarint, Varint, IsException, Restored, ExceptionList, ExceptionCount, ReadByte;
    if i == |deltas| {
      NoExceptionsLeft(deltas, width, t);
    } else {
      var d, tail := deltas[i], ExceptionList(deltas[i + 1..], width, i + 1) + t;
      RestoredStep(deltas, width, i);
      ExceptionListStep(deltas, width, i, t);
      if IsException(d, width) {
        ReadByteOf(i, Varint(d) + tail);
        VarintRoundTrip(d, tail);
        ExceptionsRoundTrip(deltas, width, i + 1, i + 1, t);
      } else {
        assert Restored(deltas, width, i)[i := d] == Restored(deltas, width, i);
        ExceptionsRoundTrip(deltas, width, i + 1, from, t);
      }
    }
  }

  lemma NoExceptionsLeft(deltas: seq<u32>, width: nat, t: seq<byte>)
    requires |deltas| <= 256
    ensures Restored(deltas, width, |deltas|) == deltas
    ensures ExceptionCount(deltas[|deltas|..], width) == 0
    ensures ExceptionList(deltas[|deltas|..], width, |deltas|) + t == t
  {
  }

  lemma PatchedRead(width: byte, exceptions: byte, base: seq<u32>, s: seq<byte>)
    requires 1 <= width < MAX_PACKED_WIDTH && 1 <= exceptions <= |base|
    requires forall i :: 0 <= i < |base| ==> base[i] < Pow2(width)
    ensures ReadPatched([width] + ([exceptions] + (PackBits(base, width) + s)), |base|)
         == ReadExceptions(s, exceptions, base, width, 0)
  {
    hide PackBits, UnpackBits, ReadExceptions, Pow2, ReadByte;
    var packed := PackBits(base, width) + s;
    ReadByteOf(width, [exceptions] + packed);
    ReadByteOf(exceptions, packed);
    PackRoundTrip(base, width, s);
  }

  lemma PatchedRoundTrip(deltas: seq<u32>, width: nat, exceptions: nat, t: seq<byte>)
    requires |deltas| < FOR_BLOCK_SIZE && ValidDocPlan(Patched(width, exceptions), deltas)
    ensures ReadPatched(DocChannel(Patched(width, exceptions), deltas) + t, |deltas|) == Ok(deltas, t)
  {
    hide PackBits, ReadExceptions, ExceptionList, Pow2, ReadPatched;
    var base, list := Base(deltas, width), ExceptionList(deltas, width, 0);
    AppendToFour([width], [exceptions], PackBits(base, width), list, t);
    BaseFits(deltas, width);
    PatchedRead(width, exceptions, base, list + t);
    assert deltas[0..] == deltas && Restored(deltas, width, 0) == base;
    ExceptionsRoundTrip(deltas, width, 0, 0, t);
  }

  lemma BaseFits(deltas: seq<u32>, width: nat)
    ensures forall i :: 0 <= i < |deltas| ==> Base(deltas, width)[i] < Pow2(width)
  {
    hide Pow2;
  }

  lemma DocChannelRoundTrip(plan: DocPlan, deltas: seq<u32>, t: seq<byte>)
    requires |deltas| < FOR_BLOCK_SIZE && ValidDocPlan(plan, deltas)
    ensures ReadDocChannel(DocChannel(plan, deltas) + t, DocMode(plan), |deltas|) == Ok(deltas, t)
  {
    hide ReadVarints, ReadPacked, ReadPatched, PackBits, Varints;
    match plan
    case VarintDeltas => VarintsRoundTrip(deltas, t);
    case Packed(width) => PackedRoundTrip(deltas, width, t);
    case Patched(width, exceptions) => PatchedRoundTrip(deltas, width, exceptions, t);
  }

  lemma FreqChannelRoundTrip(plan: FreqPlan, freqs: seq<u32>, t: seq<byte>)
    requires ValidFreqPlan(plan, freqs)
    ensures ReadFreqChannel(FreqChannel(plan, freqs) + t, FreqMode(plan), |freqs|) == Ok(freqs, t)
  {
    hide ReadVarints, ReadPacked, ReadVarint, PackBits, Varints, Varint;
    match plan
    case AllOnes =>
      assert FreqChannel(plan, freqs) + t == t;
      assert Repeated(1, |freqs|) == freqs;
    case Constant =>
      VarintRoundTrip(freqs[0], t);
      assert Repeated(freqs[0], |freqs|) == freqs;
    case PackedFreqs(width) => PackedRoundTrip(freqs, width, t);
    case VarintFreqs => VarintsRoundTrip(freqs, t);
  }

  lemma DeltasUnfold(docs: seq<u32>)
    requires StrictlyIncreasing(docs) && |docs| > 1
    ensures StrictlyIncreasing(docs[1..]) && Deltas(docs) == [docs[1] - docs[0]] + Deltas(docs[1..])
  {
  }

  lemma NothingToAccumulate(first: u32)
    ensures Accumulate(first, []) == Success([])
  {
  }

  lemma Adjacent(docs: seq<u32>)
    requires StrictlyIncreasing(docs) && |docs| > 1
    ensures docs[0] < docs[1]
  {
  }

  lemma AccumulateCons(previous: u32, delta: u32, deltas: seq<u32>)
    requires delta > 0 && previous + delta < U32_LIMIT && Accumulate(previous + delta, deltas).Success?
    ensures Accumulate(previous, [delta] + deltas)
         == Success([previous + delta] + Accumulate(previous + delta, deltas).value)
  {
    assert ([delta] + deltas)[1..] == deltas;
  }

  lemma {:induction false} AccumulateDeltas(docs: seq<u32>)
    requires StrictlyIncreasing(docs) && docs != []
    ensures Accumulate(docs[0], Deltas(docs)) == Success(docs[1..])
    decreases |docs|
  {
    hide Accumulate, Deltas, StrictlyIncreasing;
    if |docs| == 1 {
      NothingToAccumulate(docs[0]);
      assert docs[1..] == [];
    } else {
      DeltasUnfold(docs);
      Adjacent(docs);
      AccumulateDeltas(docs[1..]);
      AccumulateCons(docs[0], docs[1] - docs[0], Deltas(docs[1..]));
      assert docs[1..] == [docs[1]] + docs[1..][1..];
    }
  }

  lemma ChannelsRoundTrip(plan: DocPlan, freqPlan: FreqPlan, docs: seq<u32>, freqs: seq<u32>, t: seq<byte>)
    requires ValidBlock(docs, freqs)
    requires ValidDocPlan(plan, Deltas(docs)) && ValidFreqPlan(freqPlan, freqs)
    ensures DecodeChannels(DocChannel(plan, Deltas(docs)) + (FreqChannel(freqPlan, freqs) + t),
                           DocMode(plan), FreqMode(freqPlan), docs[0], |docs|) == Ok((docs, freqs), t)
  {
    hide DocChannel, FreqChannel, ReadDocChannel, ReadFreqChannel, Accumulate, Deltas, ValidDocPlan, ValidFreqPlan,
         DocMode, FreqMode;
    DocChannelRoundTrip(plan, Deltas(docs), FreqChannel(freqPlan, freqs) + t);
    AccumulateDeltas(docs);
    FreqChannelRoundTrip(freqPlan, freqs, t);
    assert docs == [docs[0]] + docs[1..];
  }

  /** Whatever the channel modes and whatever bytes follow, a written block reads back as the
      postings written and leaves exactly the bytes that follow. */
  lemma BlockWithRoundTrip(plan: DocPlan, freqPlan: FreqPlan, docs: seq<u32>, freqs: seq<u32>, t: seq<byte>)
    requires ValidBlock(docs, freqs)
    requires ValidDocPlan(plan, Deltas(docs)) && ValidFreqPlan(freqPlan, freqs)
    ensures DecodeBlock(BlockWith(plan, freqPlan, docs, freqs) + t, |docs|) == Ok((docs, freqs), t)
  {
    hide ReadVarint, Varint, DocChannel, FreqChannel, DecodeChannels, DecodeBlock, Deltas, ValidDocPlan, ValidFreqPlan,
         DocMode, FreqMode, ReadByte;
    var header := DocMode(plan) + 4 * FreqMode(freqPlan);
    var doc, freq := DocChannel(plan, Deltas(docs)), FreqChannel(freqPlan, freqs);
    AppendToFour([header], Varint(docs[0]), doc, freq, t);
    HeaderRead(header, docs[0], doc + (freq + t), |docs|);
    ChannelsRoundTrip(plan, freqPlan, docs, freqs, t);
  }

  lemma HeaderRead(header: byte, first: u32, s: seq<byte>, count: nat)
    requires header < 16 && count > 0
    ensures DecodeBlock([header] + (Varint(first) + s), count)
         == DecodeChannels(s, header % 4, header / 4, first, count)
  {
    hide ReadVarint, Varint, DecodeChannels, ReadByte;
    ReadByteOf(header, Varint(first) + s);
    VarintRoundTrip(first, s);
  }

  // Dependence on the bytes consumed

  lemma ReadByteAppend(s: seq<byte>, t: seq<byte>)
    ensures Extends(ReadByte(s), ReadByte(s + t), t)
  {
    if s != [] {
      assert (s + t)[1..] == s[1..] + t;
    }
  }

  lemma {:induction false} ReadVarintsAppend(s: seq<byte>, t: seq<byte>, n: nat)
    ensures Extends(ReadVarints(s, n), ReadVarints(s + t, n), t)
    decreases n
  {
    hide ReadVarint;
    if n > 0 {
      ReadVarintAppend(s, t);
      if ReadVarint(s).Ok? {
        ReadVarintsAppend(ReadVarint(s).rest, t, n - 1);
      }
    }
  }

  lemma ReadPackedAppend(s: seq<byte>, t: seq<byte>, n: nat)
    ensures Extends(ReadPacked(s, n), ReadPacked(s + t, n), t)
  {
    hide UnpackBits;
    ReadByteAppend(s, t);
    if ReadWidth(s).Ok? {
      UnpackAppend(ReadWidth(s).rest, t, n, ReadWidth(s).value);
    }
  }

  lemma {:induction false} ReadExceptionsAppend(s: seq<byte>, t: seq<byte>, n: nat, deltas: seq<u32>, width: nat,
                                                from: nat)
    ensures Extends(ReadExceptions(s, n, deltas, width, from), ReadExceptions(s + t, n, deltas, width, from), t)
    decreases n
  {
    hide ReadByte, ReadVarint, IsException;
    if n > 0 {
      ReadByteAppend(s, t);
      if ReadByte(s).Ok? {
        var index, rest := ReadByte(s).value, ReadByte(s).rest;
        ReadVarintAppend(rest, t);
        if ReadVarint(rest).Ok? && from <= index < |deltas| {
          ReadExceptionsAppend(ReadVarint(rest).rest, t, n - 1, deltas[index := ReadVarint(rest).value], width,
                               index + 1);
        }
      }
    }
  }

  lemma ReadPatchedAppend(s: seq<byte>, t: seq<byte>, n: nat)
    ensures Extends(ReadPatched(s, n), ReadPatched(s + t, n), t)
  {
    hide ReadByte, UnpackBits, ReadExceptions;
    ReadByteAppend(s, t);
    if ReadWidth(s).Ok? {
      var width, rest := ReadWidth(s).value, ReadWidth(s).rest;
      ReadByteAppend(rest, t);
      if ReadByte(rest).Ok? {
        var rest' := ReadByte(rest).rest;
        UnpackAppend(rest', t, n, width);
        if UnpackBits(rest', n, width).Ok? {
          var base := UnpackBits(rest', n, width);
          ReadExceptionsAppend(base.rest, t, ReadByte(rest).value, base.value, width, 0);
        }
      }
    }
  }

  lemma ReadDocChannelAppend(s: seq<byte>, t: seq<byte>, mode: nat, n: nat)
    ensures Extends(ReadDocChannel(s, mode, n), ReadDocChannel(s + t, mode, n), t)
  {
    hide ReadVarints, ReadPacked, ReadPatched;
    ReadVarintsAppend(s, t, n);
    ReadPackedAppend(s, t, n);
    ReadPatchedAppend(s, t, n);
  }

  lemma ReadFreqChannelAppend(s: seq<byte>, t: seq<byte>, mode: nat, n: nat)
    ensures Extends(ReadFreqChannel(s, mode, n), ReadFreqChannel(s + t, mode, n), t)
  {
    hide ReadVarints, ReadPacked, ReadVarint;
    ReadVarintAppend(s, t);
    ReadVarintsAppend(s, t, n);
    ReadPackedAppend(s, t, n);
  }

  lemma DecodeBlockAppend(s: seq<byte>, t: seq<byte>, count: nat)
    ensures Extends(DecodeBlock(s, count), DecodeBlock(s + t, count), t)
  {
    hide ReadVarint, ReadByte, DecodeChannels;
    if count > 0 {
      ReadByteAppend(s, t);
      if ReadByte(s).Ok? {
        var header, rest := ReadByte(s).value, ReadByte(s).rest;
        ReadVarintAppend(rest, t);
        if ReadVarint(rest).Ok? {
          DecodeChannelsAppend(ReadVarint(rest).rest, t, header % 4, header / 4, ReadVarint(rest).value, count);
        }
      }
    }
  }

  lemma DecodeChannelsAppend(s: seq<byte>, t: seq<byte>, docMode: nat, freqMode: nat, first: u32, count: nat)
    requires count > 0
    ensures Extends(DecodeChannels(s, docMode, freqMode, first, count),
                    DecodeChannels(s + t, docMode, freqMode, first, count), t)
  {
    hide ReadDocChannel, ReadFreqChannel, Accumulate;
    ReadDocChannelAppend(s, t, docMode, count - 1);
    if ReadDocChannel(s, docMode, count - 1).Ok? {
      ReadFreqChannelAppend(ReadDocChannel(s, docMode, count - 1).rest, t, freqMode, count);
    }
  }

  /** The bytes a successful decode consumed are a prefix, decode alone to the same postings,
      and decode to them whatever bytes come next. */
  lemma DecodeIsLocal(s: seq<byte>, count: nat, other: seq<byte>)
    requires DecodeBlock(s, count).Ok?
    ensures var d := DecodeBlock(s, count);
            var used := s[..|s| - |d.rest|];
            && s == used + d.rest
            && DecodeBlock(used + other, count) == Ok(d.value, other)
  {
    hide DecodeBlock;
    var d := DecodeBlock(s, count);
    var used, t := s[..|s| - |d.rest|], s[|s| - |d.rest|..];
    assert s == used + t;
    DecodeBlockAppend(used, t, count);
    var r := DecodeBlock(used, count);
    assert r.Ok? && d.rest == r.rest + t;
    assert r.rest == [];
    DecodeBlockAppend(used, other, count);
    assert [] + other == other && [] + t == t;
  }

  /** Cutting a block anywhere before its end is seen as the end of input, whatever the
      bytes: never as another error, never as a success. */
  lemma DecodeTruncated(s: seq<byte>, count: nat, cut: nat)
    requires DecodeBlock(s, count).Ok? && cut < |s| - |DecodeBlock(s, count).rest|
    ensures DecodeBlock(s[..cut], count) == Err(UnexpectedEof)
  {
    hide DecodeBlock;
    assert s == s[..cut] + s[cut..];
    DecodeBlockAppend(s[..cut], s[cut..], count);
  }
}
