/** The older length-prefixed format: a count, the ids as deltas, then the frequencies, all
    varints; with its eager decoder, its streaming cursor and its block inspector. */
module DeltaPostings {
  import opened Sequences
  import opened Options
  import opened Bytes
  import opened Leb128
  import opened BlockFormat
  import opened BlockRoundTrip
  import opened BlockDecoder
  import opened BlockEncoder
  import opened BlockedPostings
  import opened BlockedCodec

  /** Ids that may follow `previous`; only the first id of a list may repeat it. */
  ghost predicate Follows(previous: u32, started: bool, docs: seq<u32>) {
    StrictlyIncreasing(docs) && (docs != [] ==> previous <= docs[0] && (started ==> previous < docs[0]))
  }

  function DeltaBytes(previous: u32, docs: seq<u32>): seq<byte>
    requires Follows(previous, false, docs)
    decreases docs
  {
    if docs == [] then [] else Varint(docs[0] - previous) + DeltaBytes(docs[0], docs[1..])
  }

  /** The count is cut to 32 bits. */
  function DocIdBytes(docs: seq<u32>): seq<byte>
    requires StrictlyIncreasing(docs)
  {
    Varint(|docs| % U32_LIMIT) + DeltaBytes(0, docs)
  }

  function PostingsBytes(docs: seq<u32>, freqs: seq<u32>): seq<byte>
    requires ValidPostings(docs, freqs)
  {
    DocIdBytes(docs) + Varints(freqs)
  }

  function ReadIds(s: seq<byte>, n: nat, previous: u32, started: bool): (r: Parse<seq<u32>>)
    ensures r.Ok? ==> |r.value| == n && |r.rest| <= |s|
    decreases n
  {
    if n == 0 then Ok([], s)
    else
      match ReadVarint(s)
      case Err(e) => Err(e)
      case Ok(delta, rest) =>
        if (started && delta == 0) || previous + delta >= U32_LIMIT then Err(NotMonotonic)
        else
          match ReadIds(rest, n - 1, previous + delta, true)
          case Err(e) => Err(e)
          case Ok(ids, rest') => Ok([previous + delta] + ids, rest')
  }

  function DecodeIds(s: seq<byte>): Parse<seq<u32>> {
    match ReadVarint(s)
    case Err(e) => Err(e)
    case Ok(n, rest) => ReadIds(rest, n, 0, false)
  }

  function DecodeDocFreqs(s: seq<byte>): Parse<Postings> {
    match DecodeIds(s)
    case Err(e) => Err(e)
    case Ok(ids, rest) =>
      match ReadVarints(rest, |ids|)
      case Err(e) => Err(e)
      case Ok(freqs, rest') => Ok((ids, freqs), rest')
  }

  // Round trip

  lemma {:induction false} IdsRoundTrip(previous: u32, started: bool, docs: seq<u32>, t: seq<byte>)
    requires Follows(previous, started, docs)
    ensures ReadIds(DeltaBytes(previous, docs) + t, |docs|, previous, started) == Ok(docs, t)
    decreases docs
  {
    hide ReadVarint, Varint;
    if docs == [] {
      assert DeltaBytes(previous, docs) + t == t;
    } else {
      var tail := DeltaBytes(docs[0], docs[1..]) + t;
      assert DeltaBytes(previous, docs) + t == Varint(docs[0] - previous) + tail;
      VarintRoundTrip(docs[0] - previous, tail);
      IdsRoundTrip(docs[0], true, docs[1..], t);
      assert [docs[0]] + docs[1..] == docs;
    }
  }

  /** The prefix format returns the ids written exactly when there are fewer than 2^32 of them:
      the list of all 32-bit ids is the one whose count does not fit the prefix. */
  lemma DocIdsRoundTrip(docs: seq<u32>, t: seq<byte>)
    requires StrictlyIncreasing(docs)
    ensures |docs| <= U32_LIMIT
    ensures DecodeIds(DocIdBytes(docs) + t) == Ok(docs, t) <==> |docs| < U32_LIMIT
  {
    hide ReadVarint, Varint, DeltaBytes, StrictlyIncreasing;
    IncreasingLength(docs);
    var n, tail := |docs| % U32_LIMIT, DeltaBytes(0, docs) + t;
    assert DocIdBytes(docs) + t == Varint(n) + tail;
    VarintRoundTrip(n, tail);
    if |docs| < U32_LIMIT {
      IdsRoundTrip(0, false, docs, t);
    } else {
      assert DecodeIds(DocIdBytes(docs) + t) == Ok([], tail);
    }
  }

  /** There is such a list. */
  lemma AllIds() returns (docs: seq<u32>)
    ensures StrictlyIncreasing(docs) && |docs| == U32_LIMIT
  {
    docs := seq(U32_LIMIT, i requires 0 <= i < U32_LIMIT => i);
  }

  lemma PostingsRoundTrip(docs: seq<u32>, freqs: seq<u32>, t: seq<byte>)
    requires ValidPostings(docs, freqs)
    ensures DecodeDocFreqs(PostingsBytes(docs, freqs) + t) == Ok((docs, freqs), t) <==> |docs| < U32_LIMIT
  {
    hide DecodeIds, DocIdBytes, ReadVarints, Varints;
    assert PostingsBytes(docs, freqs) + t == DocIdBytes(docs) + (Varints(freqs) + t);
    DocIdsRoundTrip(docs, Varints(freqs) + t);
    VarintsRoundTrip(freqs, t);
    if |docs| == U32_LIMIT {
      WrappedCount(docs, Varints(freqs) + t);
    }
  }

  lemma WrappedCount(docs: seq<u32>, t: seq<byte>)
    requires StrictlyIncreasing(docs) && |docs| == U32_LIMIT
    ensures DecodeIds(DocIdBytes(docs) + t).Ok? && DecodeIds(DocIdBytes(docs) + t).value == []
  {
    hide ReadVarint, Varint, DeltaBytes;
    var tail := DeltaBytes(0, docs) + t;
    assert DocIdBytes(docs) + t == Varint(0) + tail;
    VarintRoundTrip(0, tail);
  }

  /** Whatever the bytes, ids that decode increase strictly. */
  lemma {:induction false} IdsIncrease(s: seq<byte>, n: nat, previous: u32, started: bool)
    requires ReadIds(s, n, previous, started).Ok?
    ensures Follows(previous, started, ReadIds(s, n, previous, started).value)
    decreases n
  {
    hide ReadVarint;
    if n > 0 {
      var delta := ReadVarint(s);
      IdsIncrease(delta.rest, n - 1, previous + delta.value, true);
    }
  }

  /** An id before the rest of what is read. */
  ghost function IdThen(id: u32, rest: Parse<seq<u32>>): Parse<seq<u32>> {
    match rest
    case Err(e) => Err(e)
    case Ok(ids, bytes) => Ok([id] + ids, bytes)
  }

  lemma ReadIdsStep(s: seq<byte>, n: nat, previous: u32, started: bool)
    requires n > 0
    ensures var delta := ReadVarint(s);
      ReadIds(s, n, previous, started) ==
        if delta.Err? then Err(delta.error)
        else if (started && delta.value == 0) || previous + delta.value >= U32_LIMIT then Err(NotMonotonic)
        else IdThen(previous + delta.value, ReadIds(delta.rest, n - 1, previous + delta.value, true))
  {
    hide ReadVarint;
  }

  /** Reading `a + b` ids is reading `a` ids, then `b` more from where they stopped. */
  lemma {:induction false} ReadIdsSplit(s: seq<byte>, a: nat, b: nat, previous: u32, started: bool)
    ensures var head := ReadIds(s, a, previous, started);
      match head
      case Err(e) => ReadIds(s, a + b, previous, started) == Err(e)
      case Ok(ids, rest) =>
        var tail := ReadIds(rest, b, if a == 0 then previous else ids[a - 1], started || a > 0);
        match tail
        case Err(e) => ReadIds(s, a + b, previous, started) == Err(e)
        case Ok(ids', rest') => ReadIds(s, a + b, previous, started) == Ok(ids + ids', rest')
    decreases a
  {
    hide ReadVarint, ReadIds;
    if a == 0 {
      NothingPending(s, previous, started);
      var tail := ReadIds(s, b, previous, started);
      assert tail.Ok? ==> [] + tail.value == tail.value;
    } else {
      var delta := ReadVarint(s);
      ReadIdsStep(s, a, previous, started);
      ReadIdsStep(s, a + b, previous, started);
      if delta.Ok? && !((started && delta.value == 0) || previous + delta.value >= U32_LIMIT) {
        var value: u32 := previous + delta.value;
        ReadIdsSplit(delta.rest, a - 1, b, value, true);
        var head := ReadIds(delta.rest, a - 1, value, true);
        if head.Ok? {
          var last := if a == 1 then value else head.value[a - 2];
          assert ([value] + head.value)[a - 1] == last;
          var tail := ReadIds(head.rest, b, last, true);
          if tail.Ok? { Reassociate([value], head.value, tail.value); }
        }
      }
    }
  }

  lemma {:induction false} ReadVarintsSplit(s: seq<byte>, a: nat, b: nat)
    ensures match ReadVarints(s, a)
      case Err(e) => ReadVarints(s, a + b) == Err(e)
      case Ok(vs, rest) =>
        match ReadVarints(rest, b)
        case Err(e) => ReadVarints(s, a + b) == Err(e)
        case Ok(vs', rest') => ReadVarints(s, a + b) == Ok(vs + vs', rest')
    decreases a
  {
    hide ReadVarint;
    if a == 0 {
      var tail := ReadVarints(s, b);
      assert tail.Ok? ==> [] + tail.value == tail.value;
    } else {
      var v := ReadVarint(s);
      if v.Ok? {
        ReadVarintsSplit(v.rest, a - 1, b);
        var head := ReadVarints(v.rest, a - 1);
        if head.Ok? {
          var tail := ReadVarints(head.rest, b);
          if tail.Ok? { Reassociate([v.value], head.value, tail.value); }
        }
      }
    }
  }

  // Encoding and decoding

  method EncodePostingsDocIdFreq(docIds: seq<u32>, freqs: seq<u32>) returns (r: Result<seq<byte>>)
    ensures !ValidPostings(docIds, freqs) ==> r == Failure(NotMonotonic)
    ensures ValidPostings(docIds, freqs) ==> r == Success(PostingsBytes(docIds, freqs))
  {
    if |docIds| != |freqs| {
      return Failure(NotMonotonic);
    }
    var ids :- EncodeDocIdsDeltaVarint(docIds);
    var out := WriteVarints(ids, freqs);
    r := Success(out);
  }

  method EncodeDocIdsDeltaVarint(sorted: seq<u32>) returns (r: Result<seq<byte>>)
    ensures !StrictlyIncreasing(sorted) ==> r == Failure(NotMonotonic)
    ensures StrictlyIncreasing(sorted) ==> r == Success(DocIdBytes(sorted))
  {
    var ok := ValidateStrictlyIncreasing(sorted);
    if !ok {
      return Failure(NotMonotonic);
    }
    hide Varint;
    var out := WriteVarint([], |sorted| % U32_LIMIT);
    var previous: u32 := 0;
    assert sorted[0..] == sorted;
    for i := 0 to |sorted|
      invariant Follows(previous, i > 0, sorted[i..])
      invariant out + DeltaBytes(previous, sorted[i..]) == DocIdBytes(sorted)
    {
      assert sorted[i..][1..] == sorted[i + 1..];
      Reassociate(out, Varint(sorted[i] - previous), DeltaBytes(sorted[i], sorted[i + 1..]));
      out := WriteVarint(out, sorted[i] - previous);
      previous := sorted[i];
    }
    assert DeltaBytes(previous, sorted[|sorted|..]) == [];
    assert out + [] == out;
    r := Success(out);
  }

  /** What the ids read so far and those still to read amount to. */
  ghost predicate Resumes(spec: Parse<seq<u32>>, ids: seq<u32>, tail: Parse<seq<u32>>) {
    match tail
    case Err(e) => spec == Err(e)
    case Ok(more, rest) => spec == Ok(ids + more, rest)
  }

  lemma ResumesOne(spec: Parse<seq<u32>>, ids: seq<u32>, v: u32, tail: Parse<seq<u32>>)
    requires match tail case Err(e) => spec == Err(e) case Ok(more, rest) => spec == Ok(ids + ([v] + more), rest)
    ensures Resumes(spec, ids + [v], tail)
  {
    if tail.Ok? {
      assert ids + ([v] + tail.value) == ids + [v] + tail.value;
    }
  }

  method ReadIdsAt(bytes: seq<byte>, position: nat, n: nat) returns (r: Result<seq<u32>>, position': nat)
    requires position <= |bytes|
    ensures Agrees(bytes, r, position', ReadIds(bytes[position..], n, 0, false))
  {
    hide ReadVarint;
    var out: seq<u32> := [];
    var previous: u32 := 0;
    position' := position;
    ghost var spec := ReadIds(bytes[position..], n, 0, false);
    assert spec.Ok? ==> [] + spec.value == spec.value;
    for i := 0 to n
      invariant position' <= |bytes|
      invariant Resumes(spec, out, ReadIds(bytes[position'..], n - i, previous, i > 0))
    {
      var delta;
      delta, position' :- ReadVarintAt(bytes, position');
      if i > 0 && delta == 0 {
        return Failure(NotMonotonic), position';
      }
      if previous + delta >= U32_LIMIT {
        return Failure(NotMonotonic), position';
      }
      previous := previous + delta;
      ResumesOne(spec, out, previous, ReadIds(bytes[position'..], n - i - 1, previous, true));
      out := out + [previous];
    }
    assert out + [] == out;
    r := Success(out);
  }

  method DecodeDocIdsDeltaVarint(bytes: seq<byte>) returns (r: Result<seq<u32>>)
    ensures match DecodeIds(bytes) case Ok(ids, _) => r == Success(ids) case Err(e) => r == Failure(e)
  {
    hide ReadVarint, ReadIds;
    assert bytes[0..] == bytes;
    var length, position :- ReadVarintAt(bytes, 0);
    r, position := ReadIdsAt(bytes, position, length);
  }

  method DecodePostingsDocIdFreq(bytes: seq<byte>) returns (r: Result<Postings>)
    ensures match DecodeDocFreqs(bytes) case Ok(p, _) => r == Success(p) case Err(e) => r == Failure(e)
  {
    hide ReadVarint, ReadIds, ReadVarints;
    assert bytes[0..] == bytes;
    var length, position :- ReadVarintAt(bytes, 0);
    var docIds;
    docIds, position :- ReadIdsAt(bytes, position, length);
    var freqs;
    freqs, position :- ReadVarintsAt(bytes, position, length);
    r := Success((docIds, freqs));
  }

  // Streaming

  /** Walks the ids of an encoded list one at a time. */
  class DocIdDeltaCursor {
    const bytes: seq<byte>
    var position: nat
    var remaining: nat
    var previous: u32
    var started: bool

    ghost predicate Valid()
      reads this
    {
      position <= |bytes|
    }

    /** Everything the cursor has still to yield, or the error it will meet. */
    ghost function Pending(): Parse<seq<u32>>
      requires Valid()
      reads this
    {
      ReadIds(bytes[position..], remaining, previous, started)
    }

    constructor (bytes: seq<byte>, position: nat, remaining: u32)
      requires position <= |bytes|
      ensures Valid() && Pending() == ReadIds(bytes[position..], remaining, 0, false)
      ensures this.bytes == bytes && this.remaining == remaining
    {
      this.bytes, this.position, this.remaining, this.previous, this.started := bytes, position, remaining, 0, false;
    }

    method Next() returns (r: Result<Option<u32>>)
      requires Valid()
      modifies this
      ensures r.Success? ==> Valid()
      ensures r == Success(None) <==> old(remaining) == 0
      ensures r == Success(None) ==> unchanged(this)
      ensures r.Failure? ==> old(Pending()) == Err(r.error)
      ensures r.Success? && r.value.Some? ==>
        && remaining == old(remaining) - 1
        && match Pending()
           case Err(e) => old(Pending()) == Err(e)
           case Ok(ids, rest) => old(Pending()) == Ok([r.value.value] + ids, rest)
    {
      hide ReadVarint;
      if remaining == 0 {
        return Success(None);
      }
      var delta, position' :- ReadVarintAt(bytes, position);
      position := position';
      if started && delta == 0 {
        return Failure(NotMonotonic);
      }
      if previous + delta >= U32_LIMIT {
        return Failure(NotMonotonic);
      }
      previous := previous + delta;
      started := true;
      remaining := remaining - 1;
      r := Success(Some(previous));
    }
  }

  /** Opens a cursor over an encoded list: reads the count, or fails as reading it does. */
  method OpenCursor(encoded: seq<byte>) returns (r: Result<DocIdDeltaCursor>)
    ensures match ReadVarint(encoded)
      case Err(e) => r == Failure(e)
      case Ok(_, _) => r.Success? && fresh(r.value) && r.value.Valid()
    ensures r.Success? ==> r.value.Pending() == DecodeIds(encoded)
  {
    hide ReadVarint, ReadIds;
    assert encoded[0..] == encoded;
    var length, position :- ReadVarintAt(encoded, 0);
    var cursor := new DocIdDeltaCursor(encoded, position, length);
    r := Success(cursor);
  }

  /** Opens a cursor and walks it to its end or its first error: on every byte string it
      yields what the eager decoder returns. */
  method Drain(encoded: seq<byte>) returns (r: Result<seq<u32>>)
    ensures match DecodeIds(encoded) case Ok(ids, _) => r == Success(ids) case Err(e) => r == Failure(e)
  {
    hide ReadVarint, ReadIds;
    var cursor :- OpenCursor(encoded);
    ghost var spec := cursor.Pending();
    var ids: seq<u32> := [];
    assert spec.Ok? ==> [] + spec.value == spec.value;
    while true
      invariant cursor.Valid() && fresh(cursor)
      invariant Resumes(spec, ids, cursor.Pending())
      decreases cursor.remaining
    {
      ghost var before := cursor.Pending();
      var id :- cursor.Next();
      if id.None? {
        break;
      }
      ResumesOne(spec, ids, id.value, cursor.Pending());
      ids := ids + [id.value];
    }
    NothingPending(cursor.bytes[cursor.position..], cursor.previous, cursor.started);
    assert ids + [] == ids;
    r := Success(ids);
  }

  lemma NothingPending(s: seq<byte>, previous: u32, started: bool)
    ensures ReadIds(s, 0, previous, started) == Ok([], s)
  {
  }
}
