/** The block inspector of the length-prefixed format: per-block ranges, greatest frequency
    and byte extents, without materialising the postings. */
module BlockInspection {
  import opened Sequences
  import opened Bytes
  import opened Leb128
  import opened BlockFormat
  import opened BlockedPostings
  import opened DeltaPostings
  import opened SkipList

  datatype PostingsBlockMeta = PostingsBlockMeta(
    blockIndex: nat, postingCount: nat, minDocId: u32, maxDocId: u32, maxTermFreq: u32,
    docIdsStart: nat, docIdsEnd: nat, freqsStart: nat, freqsEnd: nat)

  function MaxOf(values: seq<u32>): u32 {
    if values == [] then 0
    else
      var rest := MaxOf(values[1..]);
      if values[0] < rest then rest else values[0]
  }

  lemma {:induction false} MaxOfIsMaximum(values: seq<u32>)
    ensures values == [] ==> MaxOf(values) == 0
    ensures values != [] ==> MaxOf(values) in values && forall v | v in values :: v <= MaxOf(values)
  {
    if values != [] {
      MaxOfIsMaximum(values[1..]);
      assert values == [values[0]] + values[1..];
    }
  }

  /** The doc-id side of block `k` says the truth about ids `128 * k` on, and its extent is the
      bytes of exactly those ids. */
  ghost predicate DocPart(bytes: seq<byte>, ids: seq<u32>, k: nat, m: PostingsBlockMeta)
    requires k < BlockCount(|ids|)
  {
    var at, count := FOR_BLOCK_SIZE * k, ChunkCount(|ids|, k);
    && m.blockIndex == k && m.postingCount == count
    && m.minDocId == ids[at] && m.maxDocId == ids[at + count - 1]
    && m.docIdsStart <= m.docIdsEnd <= |bytes|
    && ReadIds(bytes[m.docIdsStart..], count, if k == 0 then 0 else ids[at - 1], k > 0)
       == Ok(ids[at..at + count], bytes[m.docIdsEnd..])
  }

  ghost predicate FreqPart(bytes: seq<byte>, freqs: seq<u32>, k: nat, m: PostingsBlockMeta)
    requires k < BlockCount(|freqs|)
  {
    var at, count := FOR_BLOCK_SIZE * k, ChunkCount(|freqs|, k);
    && m.maxTermFreq == MaxOf(freqs[at..at + count])
    && m.freqsStart <= m.freqsEnd <= |bytes|
    && ReadVarints(bytes[m.freqsStart..], count) == Ok(freqs[at..at + count], bytes[m.freqsEnd..])
  }

  /** The doc-id extents of the blocks follow one another from byte `from`. */
  ghost predicate DocsContiguous(metas: seq<PostingsBlockMeta>, from: nat) {
    && (metas != [] ==> metas[0].docIdsStart == from)
    && forall j, k :: 0 <= j < |metas| && k == j + 1 < |metas| ==> metas[k].docIdsStart == metas[j].docIdsEnd
  }

  ghost predicate FreqsContiguous(metas: seq<PostingsBlockMeta>, from: nat) {
    && (metas != [] ==> metas[0].freqsStart == from)
    && forall j, k :: 0 <= j < |metas| && k == j + 1 < |metas| ==> metas[k].freqsStart == metas[j].freqsEnd
  }

  ghost predicate DocSide(metas: seq<PostingsBlockMeta>, bytes: seq<byte>, ids: seq<u32>) {
    |metas| == BlockCount(|ids|) && forall k: nat :: k < |metas| ==> DocPart(bytes, ids, k, metas[k])
  }

  ghost predicate FreqSide(metas: seq<PostingsBlockMeta>, bytes: seq<byte>, freqs: seq<u32>) {
    |metas| == BlockCount(|freqs|) && forall k: nat :: k < |metas| ==> FreqPart(bytes, freqs, k, metas[k])
  }

  /** Where the doc-id extents end. */
  function DocsEnd(metas: seq<PostingsBlockMeta>, from: nat): nat {
    if metas == [] then from else metas[|metas| - 1].docIdsEnd
  }

  function FreqsEnd(metas: seq<PostingsBlockMeta>, from: nat): nat {
    if metas == [] then from else metas[|metas| - 1].freqsEnd
  }

  /** Where the count at the front of a payload ends and the ids begin. */
  ghost function CountEnd(bytes: seq<byte>): nat {
    match ReadVarint(bytes) case Ok(_, rest) => |bytes| - |rest| case Err(_) => 0
  }

  /** What inspecting an encoded list must return. */
  ghost predicate Describes(metas: seq<PostingsBlockMeta>, bytes: seq<byte>, ids: seq<u32>, freqs: seq<u32>) {
    && DocSide(metas, bytes, ids) && FreqSide(metas, bytes, freqs)
    && DocsContiguous(metas, CountEnd(bytes)) && FreqsContiguous(metas, DocsEnd(metas, CountEnd(bytes)))
  }

  /** The first and last of `count` ids, read without keeping them. */
  method ReadRange(bytes: seq<byte>, position: nat, count: nat, previous: u32, started: bool)
    returns (r: Result<(u32, u32)>, position': nat)
    requires position <= |bytes| && count > 0
    ensures match ReadIds(bytes[position..], count, previous, started)
            case Err(e) => r == Failure(e)
            case Ok(ids, rest) =>
              r == Success((ids[0], ids[count - 1])) && position' <= |bytes| && rest == bytes[position'..]
  {
    hide ReadVarint, ReadIds, Resumes;
    position' := position;
    var minDocId: u32, maxDocId: u32, last: u32, begun := 0, 0, previous, started;
    ghost var ids: seq<u32> := [];
    ghost var spec := ReadIds(bytes[position..], count, previous, started);
    ResumesFromStart(spec);
    for slot := 0 to count
      invariant position' <= |bytes| && |ids| == slot
      invariant Resumes(spec, ids, ReadIds(bytes[position'..], count - slot, last, begun))
      invariant slot > 0 ==> minDocId == ids[0] && maxDocId == ids[slot - 1]
    {
      var delta;
      ResumesStep(spec, ids, bytes[position'..], count - slot, last, begun);
      delta, position' :- ReadVarintAt(bytes, position');
      if begun && delta == 0 {
        return Failure(NotMonotonic), position';
      }
      if last + delta >= U32_LIMIT {
        return Failure(NotMonotonic), position';
      }
      var value: u32 := last + delta;
      if slot == 0 {
        minDocId := value;
      }
      maxDocId := value;
      last := value;
      begun := true;
      ids := ids + [value];
    }
    NothingPending(bytes[position'..], last, begun);
    ResumesToEnd(spec, ids, bytes[position'..]);
    r := Success((minDocId, maxDocId));
  }

  /** Reading one more id, or the error that ends the reading. */
  lemma ResumesStep(spec: Parse<seq<u32>>, ids: seq<u32>, s: seq<byte>, n: nat, last: u32, begun: bool)
    requires n > 0 && Resumes(spec, ids, ReadIds(s, n, last, begun))
    ensures var delta := ReadVarint(s);
      && (delta.Err? ==> spec == Err(delta.error))
      && (delta.Ok? && ((begun && delta.value == 0) || last + delta.value >= U32_LIMIT) ==> spec == Err(NotMonotonic))
      && (delta.Ok? && !(begun && delta.value == 0) && last + delta.value < U32_LIMIT ==>
          Resumes(spec, ids + [last + delta.value], ReadIds(delta.rest, n - 1, last + delta.value, true)))
  {
    hide ReadVarint, ReadIds;
    ReadIdsStep(s, n, last, begun);
    var delta := ReadVarint(s);
    if delta.Ok? && !(begun && delta.value == 0) && last + delta.value < U32_LIMIT {
      ResumesOne(spec, ids, last + delta.value, ReadIds(delta.rest, n - 1, last + delta.value, true));
    }
  }

  lemma {:induction false} MaxOfSnoc(values: seq<u32>, v: u32)
    ensures MaxOf(values + [v]) == if MaxOf(values) < v then v else MaxOf(values)
  {
    if values == [] {
      assert values + [v] == [v];
    } else {
      MaxOfSnoc(values[1..], v);
      assert (values + [v])[1..] == values[1..] + [v];
    }
  }

  /** The greatest of `count` frequencies. */
  method ReadMaxFreq(bytes: seq<byte>, position: nat, count: nat) returns (r: Result<u32>, position': nat)
    requires position <= |bytes|
    ensures match ReadVarints(bytes[position..], count)
            case Err(e) => r == Failure(e)
            case Ok(freqs, rest) => r == Success(MaxOf(freqs)) && position' <= |bytes| && rest == bytes[position'..]
  {
    hide ReadVarint, MaxOf;
    position' := position;
    var maxTermFreq: u32 := 0;
    ghost var freqs: seq<u32> := [];
    ghost var spec := ReadVarints(bytes[position..], count);
    assert spec.Ok? ==> [] + spec.value == spec.value;
    assert MaxOf([]) == 0 by { MaxOfNothing(); }
    for i := 0 to count
      invariant position' <= |bytes|
      invariant Resumes(spec, freqs, ReadVarints(bytes[position'..], count - i))
      invariant maxTermFreq == MaxOf(freqs)
    {
      var freq;
      freq, position' :- ReadVarintAt(bytes, position');
      MaxOfSnoc(freqs, freq);
      ResumesOne(spec, freqs, freq, ReadVarints(bytes[position'..], count - i - 1));
      freqs := freqs + [freq];
      if maxTermFreq < freq {
        maxTermFreq := freq;
      }
    }
    assert freqs + [] == freqs;
    r := Success(maxTermFreq);
  }

  lemma MaxOfNothing()
    ensures MaxOf([]) == 0
  {
  }

  /** A chunk of the whole list, and the rest of the list from there. */
  lemma ChunkOf(whole: seq<u32>, done: seq<u32>, chunk: seq<u32>, more: seq<u32>)
    requires whole == done + (chunk + more)
    ensures whole[|done|..|done| + |chunk|] == chunk
    ensures whole == done + chunk + more
    ensures done != [] ==> whole[|done| - 1] == done[|done| - 1]
    ensures forall i :: 0 <= i < |chunk| ==> whole[|done| + i] == chunk[i]
  {
  }

  lemma DocPartHolds(bytes: seq<byte>, whole: seq<u32>, k: nat, done: seq<u32>, chunk: seq<u32>, more: seq<u32>,
                     position: nat, end: nat, previous: u32)
    requires whole == done + (chunk + more) && |done| == FOR_BLOCK_SIZE * k
    requires k < BlockCount(|whole|) && |chunk| == ChunkCount(|whole|, k)
    requires previous == if done == [] then 0 else done[|done| - 1]
    requires position <= end <= |bytes|
    requires ReadIds(bytes[position..], |chunk|, previous, done != []) == Ok(chunk, bytes[end..])
    ensures DocPart(bytes, whole, k,
                    PostingsBlockMeta(k, |chunk|, chunk[0], chunk[|chunk| - 1], 0, position, end, 0, 0))
  {
    hide ReadIds;
    ChunkOf(whole, done, chunk, more);
  }

  /** One block of the first pass, on the specification's side. */
  lemma InspectStep(bytes: seq<byte>, spec: Parse<seq<u32>>, length: nat, position: nat, ids: seq<u32>, remaining: nat,
                    previous: u32, k: nat, end: nat)
    requires position <= |bytes| && end <= |bytes| && 0 < remaining && |ids| + remaining == length
    requires |ids| == FOR_BLOCK_SIZE * k && k + BlockCount(remaining) == BlockCount(length)
    requires previous == if ids == [] then 0 else ids[|ids| - 1]
    requires spec.Ok? ==> |spec.value| == length
    requires Resumes(spec, ids, ReadIds(bytes[position..], remaining, previous, ids != []))
    requires var head := ReadIds(bytes[position..], FirstCount(remaining), previous, ids != []);
             head.Ok? && head.rest == bytes[end..]
    ensures var count := FirstCount(remaining);
      var chunk := ReadIds(bytes[position..], count, previous, ids != []).value;
      && Resumes(spec, ids + chunk, ReadIds(bytes[end..], remaining - count, chunk[count - 1], true))
      && (spec.Ok? ==> k < BlockCount(|spec.value|) && DocPart(bytes, spec.value, k,
            PostingsBlockMeta(k, count, chunk[0], chunk[count - 1], 0, position, end, 0, 0)))
  {
    hide ReadIds, DocPart;
    var count := FirstCount(remaining);
    var head := ReadIds(bytes[position..], count, previous, ids != []);
    ReadIdsSplit(bytes[position..], count, remaining - count, previous, ids != []);
    var tail := ReadIds(bytes[end..], remaining - count, head.value[count - 1], true);
    if tail.Ok? {
      Reassociate(ids, head.value, tail.value);
      SuffixLonger(bytes, position, end);
      BlockCountStep(remaining);
      DocPartHolds(bytes, spec.value, k, ids, head.value, tail.value, position, end, previous);
    }
  }

  lemma DocsContiguousSnoc(metas: seq<PostingsBlockMeta>, from: nat, m: PostingsBlockMeta)
    requires DocsContiguous(metas, from) && m.docIdsStart == DocsEnd(metas, from)
    ensures DocsContiguous(metas + [m], from) && DocsEnd(metas + [m], from) == m.docIdsEnd
  {
  }

  lemma SuffixLonger(bytes: seq<byte>, a: nat, b: nat)
    requires a <= |bytes| && b <= |bytes| && |bytes[b..]| <= |bytes[a..]|
    ensures a <= b
  {
  }

  /** The first pass: ranges and extents of the doc ids. */
  method InspectDocs(bytes: seq<byte>, position: nat, length: nat)
    returns (r: Result<seq<PostingsBlockMeta>>, position': nat)
    requires position <= |bytes| && length > 0
    ensures match ReadIds(bytes[position..], length, 0, false)
            case Err(e) => r == Failure(e)
            case Ok(ids, rest) =>
              && r.Success? && position' <= |bytes| && rest == bytes[position'..]
              && DocSide(r.value, bytes, ids)
              && DocsContiguous(r.value, position) && DocsEnd(r.value, position) == position'
  {
    hide ReadIds, DocsContiguous, DocsEnd, DocSide, FirstCount, Inspecting;
    var blocks: seq<PostingsBlockMeta>, previous: u32, started, remaining, blockIndex := [], 0, false, length, 0;
    position' := position;
    ghost var ids: seq<u32> := [];
    ghost var spec := ReadIds(bytes[position..], length, 0, false);
    InspectStarts(bytes, spec, length, position);
    while remaining > 0
      invariant position' <= |bytes| && blockIndex == |blocks|
      invariant Inspecting(bytes, spec, length, position, blocks, ids, remaining, previous, started, position')
    {
      var postingCount := FirstCount(remaining);
      var docIdsStart := position';
      ghost var head := ReadIds(bytes[position'..], postingCount, previous, started);
      InspectFails(bytes, spec, length, position, blocks, ids, remaining, previous, started, position');
      var range;
      range, position' :- ReadRange(bytes, position', postingCount, previous, started);
      var meta := PostingsBlockMeta(blockIndex, postingCount, range.0, range.1, 0, docIdsStart, position', 0, 0);
      InspectAdvances(bytes, spec, length, position, blocks, ids, remaining, previous, started, docIdsStart, position');
      ids := ids + head.value;
      blocks := blocks + [meta];
      previous, started := range.1, true;
      remaining := remaining - postingCount;
      blockIndex := blockIndex + 1;
    }
    InspectEnds(bytes, spec, length, position, blocks, ids, previous, started, position');
    r := Success(blocks);
  }

  /** The state between blocks: what was read and what is pending make up the list, and the
      metas so far describe what was read. */
  ghost predicate Inspecting(bytes: seq<byte>, spec: Parse<seq<u32>>, length: nat, from: nat,
                             blocks: seq<PostingsBlockMeta>, ids: seq<u32>, remaining: nat, previous: u32,
                             started: bool, at: nat) {
    && at <= |bytes| && (spec.Ok? ==> |spec.value| == length)
    && InChunks(length, |ids|, remaining, |blocks|)
    && started == (ids != []) && (previous == if ids == [] then 0 else ids[|ids| - 1])
    && Resumes(spec, ids, ReadIds(bytes[at..], remaining, previous, started))
    && DocParts(bytes, spec, blocks)
    && DocsContiguous(blocks, from) && DocsEnd(blocks, from) == at
  }

  /** The metas gathered so far describe the chunks of the list, if it decodes. */
  ghost predicate DocParts(bytes: seq<byte>, spec: Parse<seq<u32>>, blocks: seq<PostingsBlockMeta>) {
    spec.Ok? ==> forall k: nat :: k < |blocks| ==>
      k < BlockCount(|spec.value|) && DocPart(bytes, spec.value, k, blocks[k])
  }

  /** `k` blocks are done, `done` ids, and `remaining` are left of `length`. */
  ghost predicate InChunks(length: nat, done: nat, remaining: nat, k: nat) {
    && done + remaining == length && k + BlockCount(remaining) == BlockCount(length)
    && (remaining > 0 ==> done == FOR_BLOCK_SIZE * k)
  }

  lemma InspectStarts(bytes: seq<byte>, spec: Parse<seq<u32>>, length: nat, position: nat)
    requires position <= |bytes| && spec == ReadIds(bytes[position..], length, 0, false)
    ensures Inspecting(bytes, spec, length, position, [], [], length, 0, false, position)
  {
    hide ReadIds, Resumes;
    NoBlocks(position);
    ResumesFromStart(spec);
  }

  /** Reading the next block, and what the method then keeps of it. */
  lemma InspectAdvances(bytes: seq<byte>, spec: Parse<seq<u32>>, length: nat, from: nat,
                        blocks: seq<PostingsBlockMeta>, ids: seq<u32>, remaining: nat, previous: u32, started: bool,
                        at: nat, end: nat)
    requires Inspecting(bytes, spec, length, from, blocks, ids, remaining, previous, started, at)
    requires remaining > 0 && at <= |bytes| && end <= |bytes|
    requires var head := ReadIds(bytes[at..], FirstCount(remaining), previous, started);
             head.Ok? && head.rest == bytes[end..]
    ensures var count := FirstCount(remaining);
      var chunk := ReadIds(bytes[at..], count, previous, started).value;
      var meta := PostingsBlockMeta(|blocks|, count, chunk[0], chunk[count - 1], 0, at, end, 0, 0);
      Inspecting(bytes, spec, length, from, blocks + [meta], ids + chunk, remaining - count, chunk[count - 1], true,
                 end)
  {
    hide ReadIds, DocPart, DocsContiguous, DocsEnd, Resumes, DocParts, FirstCount, InChunks, BlockCount;
    NextInChunks(length, |ids|, remaining, |blocks|);
    var count := FirstCount(remaining);
    var chunk := ReadIds(bytes[at..], count, previous, started).value;
    var meta := PostingsBlockMeta(|blocks|, count, chunk[0], chunk[count - 1], 0, at, end, 0, 0);
    InspectStep(bytes, spec, length, at, ids, remaining, previous, |blocks|, end);
    DocsContiguousSnoc(blocks, from, meta);
    DocPartsSnoc(bytes, spec, blocks, meta);
  }

  lemma NextInChunks(length: nat, done: nat, remaining: nat, k: nat)
    requires InChunks(length, done, remaining, k) && remaining > 0
    ensures 0 < FirstCount(remaining) <= remaining
    ensures done + remaining == length && done == FOR_BLOCK_SIZE * k && k + BlockCount(remaining) == BlockCount(length)
    ensures InChunks(length, done + FirstCount(remaining), remaining - FirstCount(remaining), k + 1)
  {
    hide BlockCount;
    BlockCountStep(remaining);
  }

  lemma DocPartsSnoc(bytes: seq<byte>, spec: Parse<seq<u32>>, blocks: seq<PostingsBlockMeta>, meta: PostingsBlockMeta)
    requires DocParts(bytes, spec, blocks)
    requires spec.Ok? ==>
      |blocks| < BlockCount(|spec.value|) && DocPart(bytes, spec.value, |blocks|, meta)
    ensures DocParts(bytes, spec, blocks + [meta])
  {
    hide DocPart, BlockCount;
  }

  lemma InspectEnds(bytes: seq<byte>, spec: Parse<seq<u32>>, length: nat, from: nat, blocks: seq<PostingsBlockMeta>,
                    ids: seq<u32>, previous: u32, started: bool, at: nat)
    requires at <= |bytes| && Inspecting(bytes, spec, length, from, blocks, ids, 0, previous, started, at)
    ensures spec == Ok(ids, bytes[at..]) && DocSide(blocks, bytes, ids)
    ensures DocsContiguous(blocks, from) && DocsEnd(blocks, from) == at
  {
    hide ReadIds, DocPart, DocsContiguous, DocsEnd, Resumes;
    NothingPending(bytes[at..], previous, started);
    ResumesToEnd(spec, ids, bytes[at..]);
  }

  lemma ResumesFromStart(spec: Parse<seq<u32>>)
    ensures Resumes(spec, [], spec)
  {
    assert spec.Ok? ==> [] + spec.value == spec.value;
  }

  lemma ResumesToEnd(spec: Parse<seq<u32>>, ids: seq<u32>, rest: seq<byte>)
    requires Resumes(spec, ids, Ok([], rest))
    ensures spec == Ok(ids, rest)
  {
    assert ids + [] == ids;
  }

  lemma NoBlocks(from: nat)
    ensures BlockCount(0) == 0 && DocsContiguous([], from) && DocsEnd([], from) == from
  {
  }

  lemma InspectFails(bytes: seq<byte>, spec: Parse<seq<u32>>, length: nat, from: nat, blocks: seq<PostingsBlockMeta>,
                     ids: seq<u32>, remaining: nat, previous: u32, started: bool, at: nat)
    requires Inspecting(bytes, spec, length, from, blocks, ids, remaining, previous, started, at) && remaining > 0
    ensures 0 < FirstCount(remaining) <= remaining && at <= |bytes|
    ensures var head := ReadIds(bytes[at..], FirstCount(remaining), previous, started);
      head.Err? ==> spec == Err(head.error)
  {
    hide ReadIds, DocParts, DocsContiguous, DocsEnd, InChunks;
    var count := FirstCount(remaining);
    ReadIdsSplit(bytes[at..], count, remaining - count, previous, started);
  }

  /** The doc-id side of the metas is left alone by the second pass. */
  ghost predicate SameDocs(a: seq<PostingsBlockMeta>, b: seq<PostingsBlockMeta>) {
    |a| == |b| && forall k :: 0 <= k < |a| ==>
      && a[k].blockIndex == b[k].blockIndex && a[k].postingCount == b[k].postingCount
      && a[k].minDocId == b[k].minDocId && a[k].maxDocId == b[k].maxDocId
      && a[k].docIdsStart == b[k].docIdsStart && a[k].docIdsEnd == b[k].docIdsEnd
  }

  lemma SameDocsKeep(a: seq<PostingsBlockMeta>, b: seq<PostingsBlockMeta>, bytes: seq<byte>, ids: seq<u32>, from: nat)
    requires SameDocs(a, b) && DocSide(a, bytes, ids) && DocsContiguous(a, from)
    ensures DocSide(b, bytes, ids) && DocsContiguous(b, from) && DocsEnd(b, from) == DocsEnd(a, from)
  {
    hide ReadIds;
    forall k: nat | k < |b| ensures DocPart(bytes, ids, k, b[k]) {
      assert DocPart(bytes, ids, k, a[k]);
    }
  }

  lemma FreqPartHolds(bytes: seq<byte>, whole: seq<u32>, k: nat, done: seq<u32>, chunk: seq<u32>, more: seq<u32>,
                      m: PostingsBlockMeta)
    requires whole == done + (chunk + more) && |done| == FOR_BLOCK_SIZE * k
    requires k < BlockCount(|whole|) && |chunk| == ChunkCount(|whole|, k)
    requires m.freqsStart <= m.freqsEnd <= |bytes| && m.maxTermFreq == MaxOf(chunk)
    requires ReadVarints(bytes[m.freqsStart..], |chunk|) == Ok(chunk, bytes[m.freqsEnd..])
    ensures FreqPart(bytes, whole, k, m)
  {
    hide ReadVarints, MaxOf;
    ChunkOf(whole, done, chunk, more);
  }

  lemma FreqStep(bytes: seq<byte>, spec: Parse<seq<u32>>, length: nat, position: nat, freqs: seq<u32>, k: nat)
    requires position <= |bytes| && k < BlockCount(length) && |freqs| == FOR_BLOCK_SIZE * k
    requires spec.Ok? ==> |spec.value| == length
    requires Resumes(spec, freqs, ReadVarints(bytes[position..], length - |freqs|))
    ensures var head := ReadVarints(bytes[position..], ChunkCount(length, k));
      && (head.Err? ==> spec == Err(head.error))
      && (head.Ok? ==>
          var tail := ReadVarints(head.rest, length - |freqs| - ChunkCount(length, k));
          && Resumes(spec, freqs + head.value, tail)
          && (spec.Ok? ==> tail.Ok? && spec.value == freqs + (head.value + tail.value)))
  {
    hide ReadVarints;
    var count := ChunkCount(length, k);
    ReadVarintsSplit(bytes[position..], count, length - |freqs| - count);
    var head := ReadVarints(bytes[position..], count);
    if head.Ok? {
      var tail := ReadVarints(head.rest, length - |freqs| - count);
      if tail.Ok? {
        Reassociate(freqs, head.value, tail.value);
      }
    }
  }

  lemma FreqsContiguousUpdate(metas: seq<PostingsBlockMeta>, k: nat, from: nat, m: PostingsBlockMeta)
    requires k < |metas| && FreqsContiguous(metas[..k], from) && m.freqsStart == FreqsEnd(metas[..k], from)
    ensures FreqsContiguous(metas[k := m][..k + 1], from) && FreqsEnd(metas[k := m][..k + 1], from) == m.freqsEnd
  {
    assert metas[k := m][..k + 1] == metas[..k] + [m];
  }

  /** The second pass: greatest frequency and frequency extents, written into the metas. */
  method InspectFreqs(bytes: seq<byte>, position: nat, metas: seq<PostingsBlockMeta>, ghost ids: seq<u32>)
    returns (r: Result<seq<PostingsBlockMeta>>)
    requires position <= |bytes| && DocSide(metas, bytes, ids)
    ensures match ReadVarints(bytes[position..], |ids|)
            case Err(e) => r == Failure(e)
            case Ok(freqs, rest) =>
              && r.Success? && SameDocs(metas, r.value)
              && FreqSide(r.value, bytes, freqs) && FreqsContiguous(r.value, position)
  {
    hide ReadVarints, DocPart, FreqPart, MaxOf, FreqsContiguous, FreqsEnd, BlockCount;
    var blocks, at: nat := metas, position;
    ghost var freqs: seq<u32>, length := [], |ids|;
    ghost var spec := ReadVarints(bytes[position..], length);
    assert spec.Ok? ==> [] + spec.value == spec.value;
    NoFreqs(position);
    WholeList(length);
    for k := 0 to |blocks|
      invariant at <= |bytes| && |blocks| == |metas| && SameDocs(metas, blocks)
      invariant |freqs| <= length
      invariant |freqs| == if k < BlockCount(length) then FOR_BLOCK_SIZE * k else length
      invariant Resumes(spec, freqs, ReadVarints(bytes[at..], length - |freqs|))
      invariant spec.Ok? ==> forall i: nat :: i < k ==> FreqPart(bytes, spec.value, i, blocks[i])
      invariant FreqsContiguous(blocks[..k], position) && FreqsEnd(blocks[..k], position) == at
    {
      var block := blocks[k];
      assert DocPart(bytes, ids, k, metas[k]);
      MetaCount(bytes, ids, k, metas[k]);
      FreqStep(bytes, spec, length, at, freqs, k);
      var freqsStart := at;
      ghost var head := ReadVarints(bytes[at..], block.postingCount);
      var maxTermFreq;
      maxTermFreq, at :- ReadMaxFreq(bytes, at, block.postingCount);
      var meta := block.(freqsStart := freqsStart, maxTermFreq := maxTermFreq, freqsEnd := at);
      SuffixLonger(bytes, freqsStart, at);
      if spec.Ok? {
        FreqPartHolds(bytes, spec.value, k, freqs, head.value,
                      ReadVarints(bytes[at..], length - |freqs| - block.postingCount).value, meta);
      }
      FreqsContiguousUpdate(blocks, k, position, meta);
      NextChunk(length, k);
      freqs := freqs + head.value;
      blocks := blocks[k := meta];
    }
    NoVarints(bytes[at..]);
    assert freqs + [] == freqs;
    assert blocks[..|blocks|] == blocks;
    r := Success(blocks);
  }

  lemma NoFreqs(from: nat)
    ensures FreqsContiguous([], from) && FreqsEnd([], from) == from
  {
  }

  lemma NoVarints(s: seq<byte>)
    ensures ReadVarints(s, 0) == Ok([], s)
  {
  }

  lemma MetaCount(bytes: seq<byte>, ids: seq<u32>, k: nat, m: PostingsBlockMeta)
    requires k < BlockCount(|ids|) && DocPart(bytes, ids, k, m)
    ensures m.postingCount == ChunkCount(|ids|, k)
  {
    hide ReadIds;
  }

  lemma NextChunk(length: nat, k: nat)
    requires k < BlockCount(length)
    ensures FOR_BLOCK_SIZE * k + ChunkCount(length, k)
         == if k + 1 < BlockCount(length) then FOR_BLOCK_SIZE * (k + 1) else length
  {
  }

  lemma WholeList(length: nat)
    ensures BlockCount(length) == 0 ==> length == 0
  {
  }

  /** Inspection succeeds exactly when decoding does, fails with the same error, and otherwise
      describes every block of the decoded list truthfully. */
  method InspectPostingsBlocks(bytes: seq<byte>) returns (r: Result<seq<PostingsBlockMeta>>)
    ensures match DecodeDocFreqs(bytes)
            case Err(e) => r == Failure(e)
            case Ok(postings, _) => r.Success? && Describes(r.value, bytes, postings.0, postings.1)
  {
    hide ReadVarint, ReadIds, ReadVarints, DocSide, FreqSide, SameDocs, DocsContiguous, FreqsContiguous, DocsEnd;
    assert bytes[0..] == bytes;
    var length, position :- ReadVarintAt(bytes, 0);
    if length == 0 {
      NothingPending(bytes[position..], 0, false);
      NoVarints(bytes[position..]);
      NothingDescribed(bytes);
      return Success([]);
    }
    ghost var ids := ReadIds(bytes[position..], length, 0, false);
    var docsStart := position;
    var metas;
    metas, position :- InspectDocs(bytes, position, length);
    var blocks;
    blocks :- InspectFreqs(bytes, position, metas, ids.value);
    SameDocsKeep(metas, blocks, bytes, ids.value, docsStart);
    r := Success(blocks);
  }

  lemma NothingDescribed(bytes: seq<byte>)
    ensures Describes([], bytes, [], [])
  {
    hide ReadVarint;
  }

  // From metas to the skip list

  function SkipEntries(metas: seq<PostingsBlockMeta>): (r: seq<BlockSkipEntry>)
    ensures |r| == |metas|
    ensures forall k :: 0 <= k < |r| ==>
      r[k] == BlockSkipEntry(metas[k].blockIndex, metas[k].minDocId, metas[k].maxDocId)
  {
    seq(|metas|, k requires 0 <= k < |metas| =>
      BlockSkipEntry(metas[k].blockIndex, metas[k].minDocId, metas[k].maxDocId))
  }

  /** What inspection returns always makes a skip list. */
  lemma MetasMakeRanges(metas: seq<PostingsBlockMeta>, bytes: seq<byte>, ids: seq<u32>)
    requires DocSide(metas, bytes, ids) && StrictlyIncreasing(ids)
    ensures ValidRanges(SkipEntries(metas))
  {
    hide ReadIds;
    forall k: nat | k < |metas| ensures DocPart(bytes, ids, k, metas[k]) {}
  }

  /** The skip list over the blocks of a payload. */
  ghost predicate Indexes(list: BlockSkipList, bytes: seq<byte>, ids: seq<u32>, freqs: seq<u32>) {
    exists metas :: Describes(metas, bytes, ids, freqs) && list.bottom == SkipEntries(metas)
  }

  /** Inspects a payload and builds its skip list: building never fails where decoding
      succeeds, and the list has one entry for each block, with its range. */
  method BuildSkipList(bytes: seq<byte>) returns (r: Result<BlockSkipList>)
    ensures match DecodeDocFreqs(bytes)
            case Err(e) => r == Failure(e)
            case Ok(postings, _) => r.Success? && ValidList(r.value) && Indexes(r.value, bytes, postings.0, postings.1)
  {
    hide ReadVarint, ReadIds, ReadVarints, DocSide, FreqSide, DocsContiguous, FreqsContiguous, DocsEnd, ValidRanges,
         DecodeDocFreqs;
    var metas :- InspectPostingsBlocks(bytes);
    DecodedIdsIncrease(bytes);
    MetasMakeRanges(metas, bytes, DecodeDocFreqs(bytes).value.0);
    r := FromBlockRanges(SkipEntries(metas));
  }

  lemma DecodedIdsIncrease(bytes: seq<byte>)
    requires DecodeDocFreqs(bytes).Ok?
    ensures StrictlyIncreasing(DecodeDocFreqs(bytes).value.0)
  {
    hide ReadVarint, ReadIds, ReadVarints, StrictlyIncreasing;
    var n := ReadVarint(bytes);
    IdsIncrease(n.rest, n.value, 0, false);
  }

  /** The range of block `k` is tight around its ids: `128 * k` to `128 * k + 127`, or the last. */
  lemma RangesAreTight(metas: seq<PostingsBlockMeta>, bytes: seq<byte>, ids: seq<u32>, k: nat)
    requires DocSide(metas, bytes, ids) && StrictlyIncreasing(ids) && k < |metas|
    ensures 128 * k < |ids|
    ensures var last := if 128 * k + 127 < |ids| then 128 * k + 127 else |ids| - 1;
      && metas[k].minDocId == ids[128 * k] && metas[k].maxDocId == ids[last]
      && metas[k].postingCount == last + 1 - 128 * k
      && forall i :: 128 * k <= i <= last ==> metas[k].minDocId <= ids[i] <= metas[k].maxDocId
  {
    hide ReadIds;
    assert DocPart(bytes, ids, k, metas[k]);
  }

  /** In the skip list of a payload, seeking finds the block of the first id that reaches the
      target: block `p / 128` for the id at `p`, and none where no id reaches it. */
  lemma SeekFindsTheBlock(list: BlockSkipList, bytes: seq<byte>, ids: seq<u32>, freqs: seq<u32>, target: u32, p: nat)
    requires Indexes(list, bytes, ids, freqs) && StrictlyIncreasing(ids)
    requires p <= |ids| && (forall i :: 0 <= i < p ==> ids[i] < target) && (p < |ids| ==> target <= ids[p])
    ensures FirstAtLeast(list.bottom, 0, target) == if p < |ids| then p / 128 else |list.bottom|
  {
    var metas: seq<PostingsBlockMeta> :| Describes(metas, bytes, ids, freqs) && list.bottom == SkipEntries(metas);
    hide DocSide, FreqSide, DocsContiguous, FreqsContiguous, FirstAtLeast, StrictlyIncreasing;
    SeekAmong(metas, bytes, ids, target, p);
  }

  lemma SeekAmong(metas: seq<PostingsBlockMeta>, bytes: seq<byte>, ids: seq<u32>, target: u32, p: nat)
    requires DocSide(metas, bytes, ids) && StrictlyIncreasing(ids)
    requires p <= |ids| && (forall i :: 0 <= i < p ==> ids[i] < target) && (p < |ids| ==> target <= ids[p])
    ensures FirstAtLeast(SkipEntries(metas), 0, target) == if p < |ids| then p / 128 else |metas|
  {
    hide FirstAtLeast, StrictlyIncreasing, DocSide;
    var k := FirstAtLeast(SkipEntries(metas), 0, target);
    if k < |metas| {
      RangesAreTight(metas, bytes, ids, k);
      NotBefore(ids, target, p, k);
    }
    if k > 0 {
      RangesAreTight(metas, bytes, ids, k - 1);
      NotAfter(ids, target, p, k - 1);
    }
    AllCovered(metas, bytes, ids);
    if p < |ids| {
      BlockOf(p, k);
    }
  }

  lemma BlockOf(p: nat, k: nat)
    requires 128 * k <= p <= 128 * k + 127
    ensures p / 128 == k
  {
  }

  lemma NotBefore(ids: seq<u32>, target: u32, p: nat, k: nat)
    requires p <= |ids| && (forall i :: 0 <= i < p ==> ids[i] < target) && 128 * k < |ids|
    requires ids[if 128 * k + 127 < |ids| then 128 * k + 127 else |ids| - 1] >= target
    ensures p < |ids| && p <= 128 * k + 127
  {
  }

  lemma NotAfter(ids: seq<u32>, target: u32, p: nat, k: nat)
    requires StrictlyIncreasing(ids) && p <= |ids| && (p < |ids| ==> target <= ids[p]) && 128 * k < |ids|
    requires ids[if 128 * k + 127 < |ids| then 128 * k + 127 else |ids| - 1] < target
    ensures p == |ids| || p >= 128 * k + 128
  {
  }

  lemma AllCovered(metas: seq<PostingsBlockMeta>, bytes: seq<byte>, ids: seq<u32>)
    requires DocSide(metas, bytes, ids)
    ensures |ids| <= 128 * |metas|
  {
    hide DocPart;
  }
}
