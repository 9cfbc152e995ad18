/** The public operations on blocked payloads, as they run. */
module BlockedCodec {
  import opened Sequences
  import opened Bytes
  import opened BlockFormat
  import opened BlockPlanning
  import opened BlockEncoder
  import opened BlockDecoder
  import opened BlockedPostings

  datatype BlockedEncodeOutput =
    BlockedEncodeOutput(payload: seq<byte>, directory: seq<BlockDirEntry>, stats: BlockedEncodeStats)

  const U64_LIMIT := 0x1_0000_0000_0000_0000

  function SaturatingAdd(a: nat, b: nat): nat {
    if a + b < U64_LIMIT then a + b else U64_LIMIT - 1
  }

  function Merge(a: BlockedEncodeStats, b: BlockedEncodeStats): BlockedEncodeStats {
    BlockedEncodeStats(SaturatingAdd(a.blocks, b.blocks), SaturatingAdd(a.docIdBytes, b.docIdBytes),
                       SaturatingAdd(a.freqBytes, b.freqBytes), SaturatingAdd(a.freqOmittedBlocks, b.freqOmittedBlocks))
  }

  /** Blocks all of whose frequencies are 1. */
  function OmittedBlocks(freqs: seq<u32>): (n: nat)
    ensures n <= BlockCount(|freqs|)
    decreases |freqs|
  {
    if freqs == [] then 0
    else
      var b := FirstCount(|freqs|);
      (if forall i :: 0 <= i < b ==> freqs[..b][i] == 1 then 1 else 0) + OmittedBlocks(freqs[b..])
  }

  /** Bytes of the frequency channels. */
  function FreqBytes(freqs: seq<u32>): nat
    decreases |freqs|
  {
    if freqs == [] then 0
    else
      var b := FirstCount(|freqs|);
      FreqCost(BestFreqPlan(freqs[..b]), freqs[..b]) + FreqBytes(freqs[b..])
  }

  /** What the writing counters of a whole list must say. */
  ghost predicate StatsOf(stats: BlockedEncodeStats, docs: seq<u32>, freqs: seq<u32>)
    requires ValidPostings(docs, freqs)
  {
    && stats.blocks == BlockCount(|docs|)
    && stats.docIdBytes + stats.freqBytes == |Payload(docs, freqs)| && stats.freqBytes == FreqBytes(freqs)
    && stats.freqOmittedBlocks == OmittedBlocks(freqs)
  }

  method ValidateStrictlyIncreasing(sorted: seq<u32>) returns (ok: bool)
    ensures ok <==> StrictlyIncreasing(sorted)
  {
    var i := 1;
    while i < |sorted|
      invariant 1 <= i && (i <= |sorted| || sorted == [])
      invariant i <= |sorted| ==> StrictlyIncreasing(sorted[..i])
    {
      if sorted[i - 1] >= sorted[i] {
        return false;
      }
      assert sorted[..i + 1] == sorted[..i] + [sorted[i]];
      i := i + 1;
    }
    assert |sorted| > 0 ==> sorted[..|sorted|] == sorted;
    return true;
  }

  /** Encodes a whole list: rejects exactly what is not a valid pair of lists, and otherwise
      returns the payload, its directory and truthful counters, none of which saturated. */
  method EncodePostingsBlockedWithDirectory(docIds: seq<u32>, freqs: seq<u32>) returns (r: Result<BlockedEncodeOutput>)
    ensures !ValidPostings(docIds, freqs) ==> r == Failure(NotMonotonic)
    ensures ValidPostings(docIds, freqs) ==>
      && r.Success?
      && r.value.payload == Payload(docIds, freqs)
      && r.value.directory == Directory(docIds, freqs, 0)
      && StatsOf(r.value.stats, docIds, freqs)
  {
    if |docIds| != |freqs| {
      return Failure(NotMonotonic);
    }
    var ok := ValidateStrictlyIncreasing(docIds);
    if !ok {
      return Failure(NotMonotonic);
    }
    hide Encoding, Payload, Directory, Block, ValidPostings, ValidBlock, StrictlyIncreasing, FreqCost, BestFreqPlan;
    var payload: seq<byte>, directory: seq<BlockDirEntry> := [], [];
    var stats := BlockedEncodeStats(0, 0, 0, 0);
    var docs, fs := docIds, freqs;
    EncodingStarts(docIds, freqs);
    while docs != []
      invariant ValidPostings(docs, fs)
      invariant Encoding(docIds, freqs, payload, directory, stats, docs, fs)
    {
      var b := FirstCount(|docs|);
      ChunksValid(docs, fs);
      var docChunk, freqChunk := docs[..b], fs[..b];
      var byteOffset := |payload|;
      var payload', blockStats := EncodeBlockInto(payload, docChunk, freqChunk);
      var entry := BlockDirEntry(byteOffset % U32_LIMIT, b, docChunk[b - 1]);
      BlockWritten(docIds, freqs, payload, directory, stats, docs, fs, b, blockStats);
      payload := payload';
      stats := Merge(stats, blockStats);
      directory := directory + [entry];
      docs, fs := docs[b..], fs[b..];
    }
    EncodingEnds(docIds, freqs, payload, directory, stats, docs, fs);
    r := Success(BlockedEncodeOutput(payload, directory, stats));
  }

  /** What holds before each block: what was written and what remains make up the whole. */
  ghost predicate Encoding(docIds: seq<u32>, freqs: seq<u32>, payload: seq<byte>, directory: seq<BlockDirEntry>,
                           stats: BlockedEncodeStats, docs: seq<u32>, fs: seq<u32>)
    requires ValidPostings(docIds, freqs) && ValidPostings(docs, fs)
  {
    && payload + Payload(docs, fs) == Payload(docIds, freqs)
    && directory + Directory(docs, fs, |payload|) == Directory(docIds, freqs, 0)
    && stats.blocks + BlockCount(|docs|) == BlockCount(|docIds|)
    && stats.docIdBytes + stats.freqBytes == |payload| && stats.freqBytes + FreqBytes(fs) == FreqBytes(freqs)
    && stats.freqOmittedBlocks + OmittedBlocks(fs) == OmittedBlocks(freqs)
  }

  lemma EncodingStarts(docIds: seq<u32>, freqs: seq<u32>)
    requires ValidPostings(docIds, freqs)
    ensures Encoding(docIds, freqs, [], [], BlockedEncodeStats(0, 0, 0, 0), docIds, freqs)
  {
    hide Payload, Directory, OmittedBlocks, FreqBytes;
    assert [] + Payload(docIds, freqs) == Payload(docIds, freqs);
    assert [] + Directory(docIds, freqs, 0) == Directory(docIds, freqs, 0);
  }

  /** Writing `block` with its directory entry and its counters leaves the postings from `b` on. */
  lemma EncodingAdvances(docIds: seq<u32>, freqs: seq<u32>, payload: seq<byte>, directory: seq<BlockDirEntry>,
                         stats: BlockedEncodeStats, docs: seq<u32>, fs: seq<u32>, docs': seq<u32>, fs': seq<u32>,
                         block: seq<byte>, entry: BlockDirEntry, blockStats: BlockedEncodeStats)
    requires ValidPostings(docIds, freqs) && ValidPostings(docs, fs) && ValidPostings(docs', fs')
    requires Encoding(docIds, freqs, payload, directory, stats, docs, fs)
    requires Payload(docs, fs) == block + Payload(docs', fs')
    requires Directory(docs, fs, |payload|) == [entry] + Directory(docs', fs', |payload| + |block|)
    requires blockStats.blocks == 1 && BlockCount(|docs|) == 1 + BlockCount(|docs'|)
    requires blockStats.docIdBytes + blockStats.freqBytes == |block|
    requires OmittedBlocks(fs) == blockStats.freqOmittedBlocks + OmittedBlocks(fs')
    requires FreqBytes(fs) == blockStats.freqBytes + FreqBytes(fs')
    ensures Encoding(docIds, freqs, payload + block, directory + [entry], Merge(stats, blockStats), docs', fs')
  {
    hide Payload, Directory, OmittedBlocks, FreqBytes, Block, StrictlyIncreasing, BlockCount, ValidPostings;
    ListBounds(docIds, freqs);
    Reassociate(payload, block, Payload(docs', fs'));
    Reassociate(directory, [entry], Directory(docs', fs', |payload| + |block|));
  }

  lemma BlockWritten(docIds: seq<u32>, freqs: seq<u32>, payload: seq<byte>, directory: seq<BlockDirEntry>,
                     stats: BlockedEncodeStats, docs: seq<u32>, fs: seq<u32>, b: nat, blockStats: BlockedEncodeStats)
    requires ValidPostings(docIds, freqs) && ValidPostings(docs, fs) && docs != [] && b == FirstCount(|docs|)
    requires 1 <= b <= |docs| == |fs| && ValidBlock(docs[..b], fs[..b]) && ValidPostings(docs[b..], fs[b..])
    requires Encoding(docIds, freqs, payload, directory, stats, docs, fs)
    requires blockStats.blocks == 1 && blockStats.docIdBytes + blockStats.freqBytes == |Block(docs[..b], fs[..b])|
    requires blockStats.freqOmittedBlocks == if forall j :: 0 <= j < |fs[..b]| ==> fs[..b][j] == 1 then 1 else 0
    requires blockStats.freqBytes == FreqCost(BestFreqPlan(fs[..b]), fs[..b])
    ensures Encoding(docIds, freqs, payload + Block(docs[..b], fs[..b]),
                     directory + [BlockDirEntry(|payload| % U32_LIMIT, b, docs[..b][b - 1])],
                     Merge(stats, blockStats), docs[b..], fs[b..])
  {
    hide Encoding, Payload, Directory, OmittedBlocks, FreqBytes, Block, BlockCount, ValidPostings, ValidBlock,
         StrictlyIncreasing, FreqCost, BestFreqPlan, Merge, FirstCount;
    assert fs != [] && FirstCount(|fs|) == b;
    FreqBytesStep(fs);
    EncodeStep(docs, fs, |payload|);
    EncodingAdvances(docIds, freqs, payload, directory, stats, docs, fs, docs[b..], fs[b..], Block(docs[..b], fs[..b]),
                     BlockDirEntry(|payload| % U32_LIMIT, b, docs[..b][b - 1]), blockStats);
  }

  lemma FreqBytesStep(freqs: seq<u32>)
    requires freqs != []
    ensures var b := FirstCount(|freqs|);
      FreqBytes(freqs) == FreqCost(BestFreqPlan(freqs[..b]), freqs[..b]) + FreqBytes(freqs[b..])
  {
    hide FreqCost, BestFreqPlan;
  }

  lemma ChunksValid(docs: seq<u32>, fs: seq<u32>)
    requires ValidPostings(docs, fs) && docs != []
    ensures var b := FirstCount(|docs|);
      1 <= b <= |docs| == |fs| && ValidBlock(docs[..b], fs[..b]) && ValidPostings(docs[b..], fs[b..])
  {
  }

  lemma EncodingEnds(docIds: seq<u32>, freqs: seq<u32>, payload: seq<byte>, directory: seq<BlockDirEntry>,
                     stats: BlockedEncodeStats, docs: seq<u32>, fs: seq<u32>)
    requires ValidPostings(docIds, freqs) && ValidPostings(docs, fs) && docs == []
    requires Encoding(docIds, freqs, payload, directory, stats, docs, fs)
    ensures payload == Payload(docIds, freqs) && directory == Directory(docIds, freqs, 0)
    ensures StatsOf(stats, docIds, freqs)
  {
    assert payload + Payload(docs, fs) == payload;
    assert directory + Directory(docs, fs, |payload|) == directory;
  }

  lemma ListBounds(docs: seq<u32>, freqs: seq<u32>)
    requires ValidPostings(docs, freqs)
    ensures |Payload(docs, freqs)| < U64_LIMIT && BlockCount(|docs|) < U64_LIMIT && OmittedBlocks(freqs) < U64_LIMIT
  {
    hide Payload, OmittedBlocks;
    PayloadBound(docs, freqs);
    IncreasingLength(docs);
  }

  lemma EncodeStep(docs: seq<u32>, freqs: seq<u32>, offset: nat)
    requires ValidPostings(docs, freqs) && docs != []
    ensures var b := FirstCount(|docs|);
      && 1 <= b <= |docs| && |docs| == |freqs|
      && ValidBlock(docs[..b], freqs[..b]) && ValidPostings(docs[b..], freqs[b..])
      && BlockCount(|docs|) == 1 + BlockCount(|docs[b..]|)
      && Payload(docs, freqs) == Block(docs[..b], freqs[..b]) + Payload(docs[b..], freqs[b..])
      && Directory(docs, freqs, offset)
         == [BlockDirEntry(offset % U32_LIMIT, b, docs[..b][b - 1])]
            + Directory(docs[b..], freqs[b..], offset + |Block(docs[..b], freqs[..b])|)
      && OmittedBlocks(freqs)
         == (if forall j :: 0 <= j < |freqs[..b]| ==> freqs[..b][j] == 1 then 1 else 0) + OmittedBlocks(freqs[b..])
  {
    hide Block;
    BlockCountStep(|docs|);
    PayloadStep(docs, freqs);
  }

  method DecodeBlockBytes(bytes: seq<byte>, count: nat) returns (r: Result<Postings>)
    ensures match DecodeBlock(bytes, count)
            case Ok(postings, _) => r == Success(postings)
            case Err(e) => r == Failure(e)
  {
    hide DecodeBlock;
    assert bytes[0..] == bytes;
    var position;
    r, position := DecodeBlockAt(bytes, 0, count);
  }

  /** Decodes a whole list block by block; bytes past the last block are not looked at. */
  method DecodePostingsBlocked(bytes: seq<byte>, totalCount: nat) returns (r: Result<Postings>)
    ensures match DecodePostings(bytes, totalCount)
            case Ok(postings, _) => r == Success(postings)
            case Err(e) => r == Failure(e)
  {
    hide DecodeBlock, DecodePostings;
    var position, remaining := 0, totalCount;
    var docIds: seq<u32>, freqs: seq<u32> := [], [];
    assert bytes[0..] == bytes;
    ghost var spec := DecodePostings(bytes, totalCount);
    assert spec.Ok? ==> [] + spec.value.0 == spec.value.0 && [] + spec.value.1 == spec.value.1;
    while remaining > 0
      invariant position <= |bytes|
      invariant match DecodePostings(bytes[position..], remaining)
                case Ok(tail, rest) => spec == Ok((docIds + tail.0, freqs + tail.1), rest)
                case Err(e) => spec == Err(e)
    {
      var blockCount := FirstCount(remaining);
      DecodeOneMore(bytes[position..], remaining);
      DecodeFails(bytes[position..], remaining);
      var block;
      block, position :- DecodeBlockAt(bytes, position, blockCount);
      ghost var tail := DecodePostings(bytes[position..], remaining - blockCount);
      if tail.Ok? {
        Reassociate(docIds, block.0, tail.value.0);
        Reassociate(freqs, block.1, tail.value.1);
      }
      docIds := docIds + block.0;
      freqs := freqs + block.1;
      remaining := remaining - blockCount;
    }
    DecodeNothing(bytes[position..]);
    assert docIds + [] == docIds && freqs + [] == freqs;
    r := Success((docIds, freqs));
  }

  lemma DecodeFails(s: seq<byte>, n: nat)
    requires n > 0
    ensures var block := DecodeBlock(s, FirstCount(n));
      && (block.Err? ==> DecodePostings(s, n) == Err(block.error))
      && (block.Ok? && DecodePostings(block.rest, n - FirstCount(n)).Err? ==>
          DecodePostings(s, n) == Err(DecodePostings(block.rest, n - FirstCount(n)).error))
  {
    hide DecodeBlock;
  }

  /** Recovers the directory from a payload by decoding every block. */
  method BlockDirectory(bytes: seq<byte>, totalCount: nat) returns (r: Result<seq<BlockDirEntry>>)
    ensures match RecoverDirectory(bytes, totalCount, 0)
            case Ok(entries, _) => r == Success(entries)
            case Err(e) => r == Failure(e)
  {
    hide DecodeBlock, RecoverDirectory;
    var position, remaining := 0, totalCount;
    var entries: seq<BlockDirEntry> := [];
    assert bytes[0..] == bytes;
    ghost var spec := RecoverDirectory(bytes, totalCount, 0);
    assert spec.Ok? ==> [] + spec.value == spec.value;
    while remaining > 0
      invariant position <= |bytes|
      invariant match RecoverDirectory(bytes[position..], remaining, position)
                case Ok(tail, rest) => spec == Ok(entries + tail, rest)
                case Err(e) => spec == Err(e)
    {
      var blockCount := FirstCount(remaining);
      var byteOffset := position;
      RecoverStep(bytes[position..], remaining, position);
      var block;
      block, position :- DecodeBlockAt(bytes, position, blockCount);
      var entry := BlockDirEntry(byteOffset % U32_LIMIT, blockCount, block.0[|block.0| - 1]);
      ghost var tail := RecoverDirectory(bytes[position..], remaining - blockCount, position);
      if tail.Ok? {
        Reassociate(entries, [entry], tail.value);
      }
      entries := entries + [entry];
      remaining := remaining - blockCount;
    }
    assert RecoverDirectory(bytes[position..], 0, position) == Ok([], bytes[position..]) by {
      RecoverNothing(bytes[position..], position);
    }
    assert entries + [] == entries;
    r := Success(entries);
  }

  lemma RecoverNothing(s: seq<byte>, offset: nat)
    ensures RecoverDirectory(s, 0, offset) == Ok([], s)
  {
  }

  lemma RecoverStep(s: seq<byte>, n: nat, offset: nat)
    requires n > 0
    ensures var b := FirstCount(n);
      match DecodeBlock(s, b)
      case Err(e) => RecoverDirectory(s, n, offset) == Err(e)
      case Ok(block, rest) =>
        match RecoverDirectory(rest, n - b, offset + |s| - |rest|)
        case Err(e) => RecoverDirectory(s, n, offset) == Err(e)
        case Ok(tail, rest') =>
          RecoverDirectory(s, n, offset) == Ok([BlockDirEntry(offset % U32_LIMIT, b, block.0[b - 1])] + tail, rest')
  {
    hide DecodeBlock;
  }
}
