/** A term's whole payload: blocks of 128 postings one after the other, and the directory
    that gives random access to them. */
module BlockedPostings {
  import opened Sequences
  import opened Bytes
  import opened Leb128
  import opened BlockFormat
  import opened BlockPlanning
  import opened BlockRoundTrip

  datatype BlockDirEntry = BlockDirEntry(byteOffset: u32, count: nat, maxDocId: u32)

  ghost predicate ValidPostings(docs: seq<u32>, freqs: seq<u32>) {
    |docs| == |freqs| && StrictlyIncreasing(docs)
  }

  /** Postings in the first block of a list of `n`. */
  function FirstCount(n: nat): nat {
    if n < FOR_BLOCK_SIZE then n else FOR_BLOCK_SIZE
  }

  function BlockCount(n: nat): nat {
    (n + FOR_BLOCK_SIZE - 1) / FOR_BLOCK_SIZE
  }

  function Payload(docs: seq<u32>, freqs: seq<u32>): seq<byte>
    requires ValidPostings(docs, freqs)
    decreases |docs|
  {
    if docs == [] then []
    else
      var b := FirstCount(|docs|);
      Block(docs[..b], freqs[..b]) + Payload(docs[b..], freqs[b..])
  }

  /** The directory of the blocks, the first of which starts at byte `offset`. Offsets are kept
      on 32 bits. */
  function Directory(docs: seq<u32>, freqs: seq<u32>, offset: nat): (r: seq<BlockDirEntry>)
    requires ValidPostings(docs, freqs)
    ensures |r| == BlockCount(|docs|)
    decreases |docs|
  {
    if docs == [] then []
    else
      var b := FirstCount(|docs|);
      [BlockDirEntry(offset % U32_LIMIT, b, docs[b - 1])]
      + Directory(docs[b..], freqs[b..], offset + |Block(docs[..b], freqs[..b])|)
  }

  function DecodePostings(s: seq<byte>, n: nat): (r: Parse<Postings>)
    ensures r.Ok? ==> |r.value.0| == |r.value.1| == n && |r.rest| <= |s|
    decreases n
  {
    if n == 0 then Ok(([], []), s)
    else
      var b := FirstCount(n);
      match DecodeBlock(s, b)
      case Err(e) => Err(e)
      case Ok(block, rest) =>
        match DecodePostings(rest, n - b)
        case Err(e) => Err(e)
        case Ok(tail, rest') => Ok((block.0 + tail.0, block.1 + tail.1), rest')
  }

  /** The directory recovered by decoding, for bytes that start at `offset`. */
  function RecoverDirectory(s: seq<byte>, n: nat, offset: nat): Parse<seq<BlockDirEntry>>
    decreases n
  {
    if n == 0 then Ok([], s)
    else
      var b := FirstCount(n);
      match DecodeBlock(s, b)
      case Err(e) => Err(e)
      case Ok(block, rest) =>
        match RecoverDirectory(rest, n - b, offset + |s| - |rest|)
        case Err(e) => Err(e)
        case Ok(tail, rest') => Ok([BlockDirEntry(offset % U32_LIMIT, b, block.0[b - 1])] + tail, rest')
  }

  // Round trip

  lemma EncodedBlockDecodes(docs: seq<u32>, freqs: seq<u32>, t: seq<byte>)
    requires ValidBlock(docs, freqs)
    ensures DecodeBlock(Block(docs, freqs) + t, |docs|) == Ok((docs, freqs), t)
  {
    hide DecodeBlock, BlockWith, ValidDocPlan, ValidFreqPlan, BestPlan, BestFreqPlan, Deltas;
    BestPlanValid(Deltas(docs));
    BestFreqPlanValid(freqs);
    BlockWithRoundTrip(BestPlan(Deltas(docs)), BestFreqPlan(freqs), docs, freqs, t);
  }

  lemma PayloadStep(docs: seq<u32>, freqs: seq<u32>)
    requires ValidPostings(docs, freqs) && docs != []
    ensures var b := FirstCount(|docs|);
      && ValidBlock(docs[..b], freqs[..b]) && ValidPostings(docs[b..], freqs[b..])
      && Payload(docs, freqs) == Block(docs[..b], freqs[..b]) + Payload(docs[b..], freqs[b..])
  {
  }

  /** The first block of an encoded list decodes to the first postings and leaves the rest. */
  lemma FirstBlockDecodes(docs: seq<u32>, freqs: seq<u32>, t: seq<byte>)
    requires ValidPostings(docs, freqs) && docs != []
    ensures var b := FirstCount(|docs|);
      && ValidPostings(docs[b..], freqs[b..])
      && DecodeBlock(Payload(docs, freqs) + t, b) == Ok((docs[..b], freqs[..b]), Payload(docs[b..], freqs[b..]) + t)
  {
    hide DecodeBlock, Block, Payload, ValidPostings, ValidBlock;
    EqualLengths(docs, freqs);
    PayloadStep(docs, freqs);
    var b := FirstCount(|docs|);
    var block, tail := Block(docs[..b], freqs[..b]), Payload(docs[b..], freqs[b..]);
    assert block + tail + t == block + (tail + t);
    EncodedBlockDecodes(docs[..b], freqs[..b], tail + t);
    assert |docs[..b]| == b;
  }

  /** Decoding an encoded list returns both lists and leaves exactly what follows. */
  lemma {:induction false} PayloadRoundTrip(docs: seq<u32>, freqs: seq<u32>, t: seq<byte>)
    requires ValidPostings(docs, freqs)
    ensures DecodePostings(Payload(docs, freqs) + t, |docs|) == Ok((docs, freqs), t)
    decreases |docs|
  {
    hide DecodeBlock, DecodePostings, ValidPostings;
    EqualLengths(docs, freqs);
    if docs == [] {
      DecodeNothing(t);
      assert Payload(docs, freqs) + t == t;
    } else {
      hide Payload;
      var b := FirstCount(|docs|);
      FirstBlockDecodes(docs, freqs, t);
      PayloadRoundTrip(docs[b..], freqs[b..], t);
      DecodeOneMore(Payload(docs, freqs) + t, |docs|);
      Rejoin(docs, b);
      Rejoin(freqs, b);
    }
  }

  lemma Rejoin<T>(s: seq<T>, i: nat)
    requires i <= |s|
    ensures s[..i] + s[i..] == s
  {
  }

  lemma DecodeNothing(s: seq<byte>)
    ensures DecodePostings(s, 0) == Ok(([], []), s)
  {
  }

  lemma DecodeOneMore(s: seq<byte>, n: nat)
    requires n > 0
    ensures var block := DecodeBlock(s, FirstCount(n));
      block.Ok? ==>
      var tail := DecodePostings(block.rest, n - FirstCount(n));
      tail.Ok? ==>
      DecodePostings(s, n) == Ok((block.value.0 + tail.value.0, block.value.1 + tail.value.1), tail.rest)
  {
    hide DecodeBlock;
  }

  lemma EqualLengths(docs: seq<u32>, freqs: seq<u32>)
    requires ValidPostings(docs, freqs)
    ensures |docs| == |freqs|
  {
  }

  lemma {:induction false} DecodePostingsAppend(s: seq<byte>, t: seq<byte>, n: nat)
    ensures Extends(DecodePostings(s, n), DecodePostings(s + t, n), t)
    decreases n
  {
    hide DecodeBlock;
    if n > 0 {
      var b := FirstCount(n);
      DecodeBlockAppend(s, t, b);
      if DecodeBlock(s, b).Ok? {
        DecodePostingsAppend(DecodeBlock(s, b).rest, t, n - b);
      }
    }
  }

  /** Every proper prefix of an encoded list is reported as truncated. */
  lemma PayloadTruncated(docs: seq<u32>, freqs: seq<u32>, cut: nat)
    requires ValidPostings(docs, freqs) && cut < |Payload(docs, freqs)|
    ensures DecodePostings(Payload(docs, freqs)[..cut], |docs|) == Err(UnexpectedEof)
  {
    hide DecodePostings, Payload;
    var p := Payload(docs, freqs);
    PayloadRoundTrip(docs, freqs, []);
    assert p + [] == p && p[..cut] + p[cut..] == p;
    DecodePostingsAppend(p[..cut], p[cut..], |docs|);
  }

  /** Distinct postings lists of the same length have distinct encodings, neither a prefix of
      the other. */
  lemma PayloadPrefixFree(docs: seq<u32>, freqs: seq<u32>, docs': seq<u32>, freqs': seq<u32>, t: seq<byte>)
    requires ValidPostings(docs, freqs) && ValidPostings(docs', freqs') && |docs| == |docs'|
    requires Payload(docs', freqs') == Payload(docs, freqs) + t
    ensures docs == docs' && freqs == freqs' && t == []
  {
    hide DecodePostings, Payload;
    PayloadRoundTrip(docs, freqs, t);
    PayloadRoundTrip(docs', freqs', []);
    assert Payload(docs', freqs') + [] == Payload(docs', freqs');
  }

  // Size

  /** Size of the list as plain varints, block by block. */
  function PlainSize(docs: seq<u32>, freqs: seq<u32>): nat
    requires ValidPostings(docs, freqs)
    decreases |docs|
  {
    if docs == [] then 0
    else
      var b := FirstCount(|docs|);
      PlainLength(docs[..b], freqs[..b]) + PlainSize(docs[b..], freqs[b..])
  }

  lemma BlockCountStep(n: nat)
    requires n > 0
    ensures BlockCount(n) == 1 + BlockCount(n - FirstCount(n))
  {
  }

  /** The payload is at most its plain varints plus one header byte per block. */
  lemma {:induction false} PayloadWithinPlain(docs: seq<u32>, freqs: seq<u32>)
    requires ValidPostings(docs, freqs)
    ensures |Payload(docs, freqs)| <= PlainSize(docs, freqs) + BlockCount(|docs|)
    decreases |docs|
  {
    hide Block, PlainLength;
    if docs != [] {
      var b := FirstCount(|docs|);
      BlockWithinPlain(docs[..b], freqs[..b]);
      PayloadWithinPlain(docs[b..], freqs[b..]);
      BlockCountStep(|docs|);
    }
  }

  lemma BlockBounds(docs: seq<u32>, freqs: seq<u32>)
    requires ValidBlock(docs, freqs)
    ensures 1 <= |Block(docs, freqs)| <= 11 * |docs|
  {
    hide Block, Varint, Deltas, VarintCost;
    BlockWithinPlain(docs, freqs);
    VarintLength(docs[0]);
    VarintCostBound(Deltas(docs));
    VarintCostBound(freqs);
  }

  lemma {:induction false} PayloadBound(docs: seq<u32>, freqs: seq<u32>)
    requires ValidPostings(docs, freqs)
    ensures |Payload(docs, freqs)| <= 11 * |docs|
    decreases |docs|
  {
    hide Block;
    if docs != [] {
      var b := FirstCount(|docs|);
      BlockBounds(docs[..b], freqs[..b]);
      PayloadBound(docs[b..], freqs[b..]);
    }
  }

  lemma {:induction false} IncreasingFrom(docs: seq<u32>, i: nat)
    requires StrictlyIncreasing(docs) && i < |docs|
    ensures docs[i] >= i
  {
    if i > 0 {
      IncreasingFrom(docs, i - 1);
    }
  }

  /** A strictly increasing list of 32-bit ids has at most 2^32 of them. */
  lemma IncreasingLength(docs: seq<u32>)
    requires StrictlyIncreasing(docs)
    ensures |docs| <= U32_LIMIT
  {
    if docs != [] {
      IncreasingFrom(docs, |docs| - 1);
    }
  }

  // The directory

  /** The directory written while encoding is the one recovered by decoding. */
  lemma {:induction false} DirectoryRecovered(docs: seq<u32>, freqs: seq<u32>, offset: nat, t: seq<byte>)
    requires ValidPostings(docs, freqs)
    ensures RecoverDirectory(Payload(docs, freqs) + t, |docs|, offset) == Ok(Directory(docs, freqs, offset), t)
    decreases |docs|
  {
    hide DecodeBlock, Block;
    if docs == [] {
      assert Payload(docs, freqs) + t == t;
    } else {
      var b := FirstCount(|docs|);
      PayloadStep(docs, freqs);
      FirstBlockDecodes(docs, freqs, t);
      DirectoryRecovered(docs[b..], freqs[b..], offset + |Block(docs[..b], freqs[..b])|, t);
    }
  }

  /** Where block `k` starts in the payload. */
  function BlockStart(docs: seq<u32>, freqs: seq<u32>, k: nat): nat
    requires ValidPostings(docs, freqs) && k < BlockCount(|docs|)
    decreases |docs|
  {
    if k == 0 then 0
    else
      var b := FirstCount(|docs|);
      BlockCountStep(|docs|);
      |Block(docs[..b], freqs[..b])| + BlockStart(docs[b..], freqs[b..], k - 1)
  }

  /** Postings `128 * k` to `128 * k + ChunkCount(n, k) - 1` form block `k`. */
  function ChunkCount(n: nat, k: nat): nat
    requires k < BlockCount(n)
  {
    FirstCount(n - FOR_BLOCK_SIZE * k)
  }

  lemma {:induction false} PayloadFrom(docs: seq<u32>, freqs: seq<u32>, k: nat)
    requires ValidPostings(docs, freqs) && k < BlockCount(|docs|)
    ensures BlockStart(docs, freqs, k) <= |Payload(docs, freqs)|
    ensures Payload(docs, freqs)[BlockStart(docs, freqs, k)..]
         == Payload(docs[FOR_BLOCK_SIZE * k..], freqs[FOR_BLOCK_SIZE * k..])
    decreases |docs|
  {
    hide Block, Payload, BlockStart, BlockCount;
    BlockStartUnfolds(docs, freqs, k);
    if k == 0 {
      assert docs[0..] == docs && freqs[0..] == freqs;
    } else {
      var b, i := FOR_BLOCK_SIZE, FOR_BLOCK_SIZE * (k - 1);
      var docs', freqs' := docs[b..], freqs[b..];
      PayloadStep(docs, freqs);
      PayloadFrom(docs', freqs', k - 1);
      DropPrefix(Block(docs[..b], freqs[..b]), Payload(docs', freqs'), BlockStart(docs', freqs', k - 1));
      BlocksFit(|docs'|, k - 1);
      DropTwice(docs, b, i);
      DropTwice(freqs, b, i);
    }
  }

  lemma BlocksFit(n: nat, k: nat)
    requires k < BlockCount(n)
    ensures FOR_BLOCK_SIZE * k < n
  {
  }

  lemma BlockStartUnfolds(docs: seq<u32>, freqs: seq<u32>, k: nat)
    requires ValidPostings(docs, freqs) && k < BlockCount(|docs|)
    ensures k == 0 ==> BlockStart(docs, freqs, k) == 0
    ensures k > 0 ==>
      && |docs| > FOR_BLOCK_SIZE && FirstCount(|docs|) == FOR_BLOCK_SIZE && k - 1 < BlockCount(|docs| - FOR_BLOCK_SIZE)
      && var b := FOR_BLOCK_SIZE;
         && ValidBlock(docs[..b], freqs[..b]) && ValidPostings(docs[b..], freqs[b..])
         && BlockStart(docs, freqs, k) == |Block(docs[..b], freqs[..b])| + BlockStart(docs[b..], freqs[b..], k - 1)
  {
    hide Block;
  }

  lemma {:induction false} DirectoryEntry(docs: seq<u32>, freqs: seq<u32>, offset: nat, k: nat)
    requires ValidPostings(docs, freqs) && k < BlockCount(|docs|)
    ensures Directory(docs, freqs, offset)[k]
         == BlockDirEntry((offset + BlockStart(docs, freqs, k)) % U32_LIMIT, ChunkCount(|docs|, k),
                          docs[FOR_BLOCK_SIZE * k + ChunkCount(|docs|, k) - 1])
    decreases |docs|
  {
    hide Block, BlockStart, BlockCount, Directory;
    BlockStartUnfolds(docs, freqs, k);
    DirectoryUnfolds(docs, freqs, offset);
    if k > 0 {
      var b := FOR_BLOCK_SIZE;
      DirectoryEntry(docs[b..], freqs[b..], offset + |Block(docs[..b], freqs[..b])|, k - 1);
      BlocksFit(|docs| - b, k - 1);
    }
  }

  lemma DirectoryUnfolds(docs: seq<u32>, freqs: seq<u32>, offset: nat)
    requires ValidPostings(docs, freqs) && BlockCount(|docs|) > 0
    ensures docs != []
    ensures var b := FirstCount(|docs|);
      && ValidBlock(docs[..b], freqs[..b]) && ValidPostings(docs[b..], freqs[b..])
      && Directory(docs, freqs, offset) == [BlockDirEntry(offset % U32_LIMIT, b, docs[b - 1])]
         + Directory(docs[b..], freqs[b..], offset + |Block(docs[..b], freqs[..b])|)
  {
    hide Block;
  }

  /** Random access: from its directory offset, a block decodes alone to its own chunk of the
      postings, whatever bytes follow the payload. */
  lemma BlockDecodesAlone(docs: seq<u32>, freqs: seq<u32>, k: nat, t: seq<byte>)
    requires ValidPostings(docs, freqs) && k < BlockCount(|docs|)
    requires BlockStart(docs, freqs, k) < U32_LIMIT
    ensures var entry, i := Directory(docs, freqs, 0)[k], FOR_BLOCK_SIZE * k;
      && i + entry.count <= |docs|
      && entry.byteOffset <= |Payload(docs, freqs)|
      && entry.maxDocId == docs[i + entry.count - 1]
      && var d := DecodeBlock(Payload(docs, freqs)[entry.byteOffset..] + t, entry.count);
         d.Ok? && d.value == (docs[i..i + entry.count], freqs[i..i + entry.count])
  {
    hide DecodeBlock, Payload, BlockStart, Directory;
    var i, b := FOR_BLOCK_SIZE * k, ChunkCount(|docs|, k);
    DirectoryEntry(docs, freqs, 0, k);
    PayloadFrom(docs, freqs, k);
    FirstBlockDecodes(docs[i..], freqs[i..], t);
    assert docs[i..][..b] == docs[i..i + b] && freqs[i..][..b] == freqs[i..i + b];
  }

  lemma {:induction false} BlockStartStep(docs: seq<u32>, freqs: seq<u32>, k: nat)
    requires ValidPostings(docs, freqs) && k + 1 < BlockCount(|docs|)
    ensures BlockStart(docs, freqs, k) < BlockStart(docs, freqs, k + 1)
    ensures BlockStart(docs, freqs, k + 1) <= BlockStart(docs, freqs, k) + 11 * FOR_BLOCK_SIZE
    decreases k
  {
    hide Block;
    var b := FirstCount(|docs|);
    BlockCountStep(|docs|);
    if k == 0 {
      BlockBounds(docs[..b], freqs[..b]);
    } else {
      BlockStartStep(docs[b..], freqs[b..], k - 1);
    }
  }

  lemma {:induction false} BlockStartMonotonic(docs: seq<u32>, freqs: seq<u32>, i: nat, j: nat)
    requires ValidPostings(docs, freqs) && i < j < BlockCount(|docs|)
    ensures BlockStart(docs, freqs, i) < BlockStart(docs, freqs, j)
    decreases j
  {
    hide BlockStart;
    BlockStartStep(docs, freqs, j - 1);
    if i < j - 1 {
      BlockStartMonotonic(docs, freqs, i, j - 1);
    }
  }

  ghost predicate OffsetsIncrease(directory: seq<BlockDirEntry>) {
    forall i, j :: 0 <= i < j < |directory| ==> directory[i].byteOffset < directory[j].byteOffset
  }

  /** Offsets are cut to 32 bits: they increase strictly exactly when the last block starts
      below 2^32. The greatest ids of the blocks always increase. */
  lemma DirectoryIncreases(docs: seq<u32>, freqs: seq<u32>)
    requires ValidPostings(docs, freqs)
    ensures var d := Directory(docs, freqs, 0);
      && (forall i, j :: 0 <= i < j < |d| ==> d[i].maxDocId < d[j].maxDocId)
      && (OffsetsIncrease(d) <==> (docs == [] || BlockStart(docs, freqs, BlockCount(|docs|) - 1) < U32_LIMIT))
  {
    hide BlockStart, Directory, BlockCount;
    var d, n := Directory(docs, freqs, 0), BlockCount(|docs|);
    forall i: nat, j: nat | i < j < n ensures d[i].maxDocId < d[j].maxDocId {
      MaximaIncrease(docs, freqs, i, j);
    }
    NoBlocksForNothing();
    if docs != [] {
      BlockCountStep(|docs|);
      if BlockStart(docs, freqs, n - 1) < U32_LIMIT {
        forall i: nat, j: nat | i < j < n ensures d[i].byteOffset < d[j].byteOffset {
          DirectoryEntry(docs, freqs, 0, i);
          DirectoryEntry(docs, freqs, 0, j);
          BlockStartMonotonic(docs, freqs, i, j);
          if j < n - 1 { BlockStartMonotonic(docs, freqs, j, n - 1); }
        }
      } else {
        OffsetsWrap(docs, freqs);
      }
    }
  }

  lemma NoBlocksForNothing()
    ensures BlockCount(0) == 0
  {
  }

  lemma MaximaIncrease(docs: seq<u32>, freqs: seq<u32>, i: nat, j: nat)
    requires ValidPostings(docs, freqs) && i < j < BlockCount(|docs|)
    ensures Directory(docs, freqs, 0)[i].maxDocId < Directory(docs, freqs, 0)[j].maxDocId
  {
    hide BlockStart, Directory;
    DirectoryEntry(docs, freqs, 0, i);
    DirectoryEntry(docs, freqs, 0, j);
  }

  lemma OffsetsWrap(docs: seq<u32>, freqs: seq<u32>)
    requires ValidPostings(docs, freqs) && docs != [] && BlockCount(|docs|) > 0
    requires BlockStart(docs, freqs, BlockCount(|docs|) - 1) >= U32_LIMIT
    ensures !OffsetsIncrease(Directory(docs, freqs, 0))
  {
    hide BlockStart, Directory, BlockCount;
    var d := Directory(docs, freqs, 0);
    var k := WrappingBlock(docs, freqs, BlockCount(|docs|) - 1);
    DirectoryEntry(docs, freqs, 0, k - 1);
    DirectoryEntry(docs, freqs, 0, k);
    assert d[k - 1].byteOffset >= d[k].byteOffset;
  }

  /** The first block to start past 2^32. */
  lemma {:induction false} WrappingBlock(docs: seq<u32>, freqs: seq<u32>, j: nat) returns (k: nat)
    requires ValidPostings(docs, freqs) && j < BlockCount(|docs|)
    requires BlockStart(docs, freqs, j) >= U32_LIMIT
    ensures 1 <= k < BlockCount(|docs|)
    ensures BlockStart(docs, freqs, k - 1) < U32_LIMIT <= BlockStart(docs, freqs, k) < U32_LIMIT + 11 * FOR_BLOCK_SIZE
    ensures U32_LIMIT <= BlockStart(docs, freqs, k - 1) + 11 * FOR_BLOCK_SIZE
    decreases j
  {
    hide BlockStart, BlockCount, ValidPostings;
    BlockStartsAtZero(docs, freqs);
    assert j > 0;
    BlockStartStep(docs, freqs, j - 1);
    if BlockStart(docs, freqs, j - 1) < U32_LIMIT {
      k := j;
    } else {
      k := WrappingBlock(docs, freqs, j - 1);
    }
  }

  lemma BlockStartsAtZero(docs: seq<u32>, freqs: seq<u32>)
    requires ValidPostings(docs, freqs) && 0 < BlockCount(|docs|)
    ensures BlockStart(docs, freqs, 0) == 0
  {
  }

  // Order across blocks

  ghost predicate IncreasesAtBoundaries(docs: seq<u32>) {
    forall i :: 0 < i < |docs| && i % FOR_BLOCK_SIZE == 0 ==> docs[i - 1] < docs[i]
  }

  /** On arbitrary bytes each block decodes to increasing ids, but nothing relates a block to
      the next: the whole list increases exactly when it does so at every block boundary. */
  lemma {:induction false} OrderAtBoundaries(s: seq<byte>, n: nat)
    requires DecodePostings(s, n).Ok?
    ensures var docs := DecodePostings(s, n).value.0;
      StrictlyIncreasing(docs) <==> IncreasesAtBoundaries(docs)
    decreases n
  {
    hide DecodeBlock;
    if n > 0 {
      var b := FirstCount(n);
      var block := DecodeBlock(s, b);
      var head, tail := block.value.0, DecodePostings(block.rest, n - b).value.0;
      OrderAtBoundaries(block.rest, n - b);
      assert DecodePostings(s, n).value.0 == head + tail;
      BoundariesConcat(head, tail);
    }
  }

  lemma BoundariesConcat(head: seq<u32>, tail: seq<u32>)
    requires StrictlyIncreasing(head) && head != []
    requires tail != [] ==> |head| == FOR_BLOCK_SIZE
    requires StrictlyIncreasing(tail) <==> IncreasesAtBoundaries(tail)
    ensures StrictlyIncreasing(head + tail) <==> IncreasesAtBoundaries(head + tail)
  {
    var docs, b := head + tail, |head|;
    if tail == [] {
      assert docs == head;
    } else if IncreasesAtBoundaries(docs) {
      forall i | 0 < i < |tail| && i % FOR_BLOCK_SIZE == 0 ensures tail[i - 1] < tail[i] {
        assert (i + b) % FOR_BLOCK_SIZE == 0;
        assert docs[i + b - 1] < docs[i + b];
      }
      assert docs[b - 1] < docs[b];
      IncreasingConcat(head, tail);
    }
  }

  lemma IncreasingConcat(a: seq<u32>, b: seq<u32>)
    requires StrictlyIncreasing(a) && StrictlyIncreasing(b)
    requires a != [] && b != [] ==> a[|a| - 1] < b[0]
    ensures StrictlyIncreasing(a + b)
  {
    forall i, j | 0 <= i < j < |a + b| ensures (a + b)[i] < (a + b)[j] {
      if i < |a| <= j {
        assert a[i] <= a[|a| - 1] && b[0] <= b[j - |a|];
      }
    }
  }

  /** The guard the decoding loop lacks, over the bytes themselves: the id after the header of
      each block exceeds the last id of the block before. */
  ghost predicate FirstsFollow(s: seq<byte>, n: nat, previous: int)
    decreases n
  {
    n > 0 ==>
      var b := FirstCount(n);
      var block := DecodeBlock(s, b);
      && block.Ok? && s != [] && ReadVarint(s[1..]).Ok? && previous < ReadVarint(s[1..]).value
      && FirstsFollow(block.rest, n - b, block.value.0[b - 1])
  }

  lemma FirstId(s: seq<byte>, count: nat)
    requires count > 0 && DecodeBlock(s, count).Ok?
    ensures s != [] && ReadVarint(s[1..]).Ok? && DecodeBlock(s, count).value.0[0] == ReadVarint(s[1..]).value
  {
    hide ReadVarint, ReadDocChannel, ReadFreqChannel, Accumulate;
  }

  lemma {:induction false} OrderFrom(s: seq<byte>, n: nat, previous: int)
    requires DecodePostings(s, n).Ok?
    ensures var docs := DecodePostings(s, n).value.0;
      FirstsFollow(s, n, previous) <==> (StrictlyIncreasing(docs) && (docs != [] ==> previous < docs[0]))
    decreases n
  {
    hide DecodeBlock, ReadVarint;
    if n > 0 {
      var b := FirstCount(n);
      var block := DecodeBlock(s, b);
      var head, tail := block.value.0, DecodePostings(block.rest, n - b).value.0;
      FirstId(s, b);
      OrderFrom(block.rest, n - b, head[b - 1]);
      assert DecodePostings(s, n).value.0 == head + tail;
      IncreasingParts(head, tail);
    }
  }

  lemma IncreasingParts(a: seq<u32>, b: seq<u32>)
    requires StrictlyIncreasing(a) && a != []
    ensures StrictlyIncreasing(a + b) <==> (StrictlyIncreasing(b) && (b != [] ==> a[|a| - 1] < b[0]))
  {
    if StrictlyIncreasing(a + b) {
      var all, n := a + b, |a|;
      forall i, j | 0 <= i < j < |b| ensures b[i] < b[j] {
        assert all[n + i] < all[n + j];
      }
      if b != [] {
        assert all[n - 1] < all[n];
      }
    } else if StrictlyIncreasing(b) && (b != [] ==> a[|a| - 1] < b[0]) {
      IncreasingConcat(a, b);
    }
  }

  /** Checking that guard block by block decides whether the decoded ids increase. */
  lemma OrderByFirstIds(s: seq<byte>, n: nat)
    requires DecodePostings(s, n).Ok?
    ensures StrictlyIncreasing(DecodePostings(s, n).value.0) <==> FirstsFollow(s, n, -1)
  {
    hide DecodePostings, FirstsFollow;
    OrderFrom(s, n, -1);
  }

  /** A payload that decodes to ids out of order: two well-formed blocks, the second starting
      again at 0. */
  lemma UnorderedPayloadDecodes() returns (s: seq<byte>)
    ensures DecodePostings(s, 129).Ok? && !StrictlyIncreasing(DecodePostings(s, 129).value.0)
  {
    hide DecodeBlock, Block;
    var ids, ones: seq<u32> := seq(128, i requires 0 <= i < 128 => i), seq(128, _ => 1);
    s := Block(ids, ones) + (Block([0], [1]) + []);
    EncodedBlockDecodes(ids, ones, Block([0], [1]) + []);
    EncodedBlockDecodes([0], [1], []);
    assert DecodePostings([], 0) == Ok(([], []), []);
    assert DecodePostings(Block([0], [1]) + [], 1) == Ok(([0] + [], [1] + []), []);
    var docs := DecodePostings(s, 129).value.0;
    assert docs == ids + ([0] + []);
    assert docs[0] == 0 && docs[128] == 0;
  }
}
