/** The block decoder as it runs: a position advanced through the input, each channel read by
    a loop, every step agreeing with the parse of the remaining bytes. */
module BlockDecoder {
  import opened BitOps
  import opened Bytes
  import opened Leb128
  import opened BitPacking
  import opened BlockFormat

  method ReadByteAt(bytes: seq<byte>, position: nat) returns (r: Result<byte>, position': nat)
    requires position <= |bytes|
    ensures Agrees(bytes, r, position', ReadByte(bytes[position..]))
  {
    if position >= |bytes| {
      return Failure(UnexpectedEof), position;
    }
    assert bytes[position..][1..] == bytes[position + 1..];
    return Success(bytes[position]), position + 1;
  }

  method ReadVarintsAt(bytes: seq<byte>, position: nat, n: nat) returns (r: Result<seq<u32>>, position': nat)
    requires position <= |bytes|
    ensures Agrees(bytes, r, position', ReadVarints(bytes[position..], n))
  {
    hide ReadVarint;
    var values: seq<u32> := [];
    position' := position;
    ghost var spec := ReadVarints(bytes[position..], n);
    assert spec.Ok? ==> [] + spec.value == spec.value;
    for i := 0 to n
      invariant position' <= |bytes|
      invariant spec == Prepend(values, ReadVarints(bytes[position'..], n - i))
    {
      ghost var tail := ReadVarints(bytes[position'..], n - i);
      var value;
      value, position' :- ReadVarintAt(bytes, position');
      PrependOne(values, value, ReadVarints(bytes[position'..], n - i - 1));
      values := values + [value];
    }
    assert values + [] == values;
    r := Success(values);
  }

  ghost function Prepend(values: seq<u32>, tail: Parse<seq<u32>>): Parse<seq<u32>> {
    match tail
    case Err(e) => Err(e)
    case Ok(vs, rest) => Ok(values + vs, rest)
  }

  lemma PrependOne(values: seq<u32>, v: u32, tail: Parse<seq<u32>>)
    ensures tail.Ok? ==> values + ([v] + tail.value) == values + [v] + tail.value
  {
  }

  method ReadWidthAt(bytes: seq<byte>, position: nat) returns (r: Result<nat>, position': nat)
    requires position <= |bytes|
    ensures Agrees(bytes, r, position', ReadWidth(bytes[position..]))
  {
    hide ReadByte;
    var width;
    width, position' :- ReadByteAt(bytes, position);
    if width == 0 || width > MAX_PACKED_WIDTH {
      return Failure(MalformedBlock), position';
    }
    r := Success(width);
  }

  method ReadPackedAt(bytes: seq<byte>, position: nat, n: nat) returns (r: Result<seq<u32>>, position': nat)
    requires position <= |bytes|
    ensures Agrees(bytes, r, position', ReadPacked(bytes[position..], n))
  {
    hide ReadWidth, UnpackBits;
    var width;
    width, position' :- ReadWidthAt(bytes, position);
    r, position' := UnpackAt(bytes, position', n, width);
  }

  method ReadExceptionsAt(bytes: seq<byte>, position: nat, n: nat, base: seq<u32>, width: nat)
    returns (r: Result<seq<u32>>, position': nat)
    requires position <= |bytes|
    ensures Agrees(bytes, r, position', ReadExceptions(bytes[position..], n, base, width, 0))
  {
    hide ReadByte, ReadVarint, IsException;
    var deltas := base;
    position' := position;
    var previousIndex := -1;
    ghost var spec := ReadExceptions(bytes[position..], n, base, width, 0);
    for i := 0 to n
      invariant position' <= |bytes| && previousIndex >= -1
      invariant spec == ReadExceptions(bytes[position'..], n - i, deltas, width, previousIndex + 1)
    {
      var index;
      index, position' :- ReadByteAt(bytes, position');
      if index >= |deltas| || index <= previousIndex {
        return Failure(MalformedBlock), position';
      }
      var value;
      value, position' :- ReadVarintAt(bytes, position');
      if !IsException(value, width) || deltas[index] != 0 {
        return Failure(MalformedBlock), position';
      }
      deltas := deltas[index := value];
      previousIndex := index;
    }
    r := Success(deltas);
  }

  method ReadPatchedAt(bytes: seq<byte>, position: nat, n: nat) returns (r: Result<seq<u32>>, position': nat)
    requires position <= |bytes|
    ensures Agrees(bytes, r, position', ReadPatched(bytes[position..], n))
  {
    hide ReadWidth, UnpackBits, ReadByte, ReadExceptions;
    var width;
    width, position' :- ReadWidthAt(bytes, position);
    if width >= MAX_PACKED_WIDTH {
      return Failure(MalformedBlock), position';
    }
    var exceptions;
    exceptions, position' :- ReadByteAt(bytes, position');
    if exceptions == 0 || exceptions > n {
      return Failure(MalformedBlock), position';
    }
    var base;
    base, position' :- UnpackAt(bytes, position', n, width);
    r, position' := ReadExceptionsAt(bytes, position', exceptions, base, width);
  }

  /** Rebuilds the ids from the first one and the deltas. */
  method Rebuild(first: u32, deltas: seq<u32>) returns (r: Result<seq<u32>>)
    ensures match Accumulate(first, deltas)
            case Failure(e) => r == Failure(e)
            case Success(ids) => r == Success([first] + ids)
  {
    var docIds: seq<u32> := [first];
    var previous: u32 := first;
    ghost var spec := Accumulate(first, deltas);
    assert spec.Success? ==> docIds + spec.value == [first] + spec.value;
    assert deltas[0..] == deltas;
    for i := 0 to |deltas|
      invariant |docIds| == i + 1
      invariant match Accumulate(previous, deltas[i..])
                case Failure(e) => spec == Failure(e)
                case Success(ids) => spec.Success? && [first] + spec.value == docIds + ids
    {
      assert deltas[i..][1..] == deltas[i + 1..];
      if deltas[i] == 0 || previous + deltas[i] >= U32_LIMIT {
        return Failure(NotMonotonic);
      }
      previous := previous + deltas[i];
      ghost var rest := Accumulate(previous, deltas[i + 1..]);
      assert rest.Success? ==> docIds + ([previous] + rest.value) == docIds + [previous] + rest.value;
      docIds := docIds + [previous];
    }
    assert docIds + [] == docIds;
    r := Success(docIds);
  }

  lemma AndEvenMask(a: nat, m: nat)
    ensures BitAnd(a, 2 * m) == 2 * BitAnd(a / 2, m)
  {
  }

  /** The reserved mask and the two mode fields of the header. */
  lemma HeaderFields(header: byte)
    ensures BitAnd(header, 0xf0) != 0 <==> header >= 16
    ensures BitAnd(header, 3) == header % 4 && BitAnd(header / Pow2(2), 3) == header / 4 % 4
  {
    hide BitAnd;
    AndEvenMask(header, 0x78);
    AndEvenMask(header / 2, 0x3c);
    AndEvenMask(header / 4, 0x1e);
    AndEvenMask(header / 8, 0x0f);
    assert Pow2(4) == 16 && Pow2(2) == 4;
    AndMask(header / 16, 4);
    AndMask(header, 2);
    AndMask(header / 4, 2);
  }

  method ReadDocChannelAt(bytes: seq<byte>, position: nat, mode: nat, n: nat)
    returns (r: Result<seq<u32>>, position': nat)
    requires position <= |bytes|
    ensures Agrees(bytes, r, position', ReadDocChannel(bytes[position..], mode, n))
  {
    hide ReadVarints, ReadPacked, ReadPatched;
    if mode == 0 {
      r, position' := ReadVarintsAt(bytes, position, n);
    } else if mode == 1 {
      r, position' := ReadPackedAt(bytes, position, n);
    } else if mode == 2 {
      r, position' := ReadPatchedAt(bytes, position, n);
    } else {
      r, position' := Failure(MalformedBlock), position;
    }
  }

  method ReadFreqChannelAt(bytes: seq<byte>, position: nat, mode: nat, n: nat)
    returns (r: Result<seq<u32>>, position': nat)
    requires position <= |bytes|
    ensures Agrees(bytes, r, position', ReadFreqChannel(bytes[position..], mode, n))
  {
    hide ReadVarints, ReadPacked, ReadVarint;
    if mode == 0 {
      r, position' := Success(Repeated(1, n)), position;
    } else if mode == 1 {
      var constant;
      constant, position' :- ReadVarintAt(bytes, position);
      if constant == 1 {
        return Failure(MalformedBlock), position';
      }
      r := Success(Repeated(constant, n));
    } else if mode == 2 {
      r, position' := ReadPackedAt(bytes, position, n);
    } else if mode == 3 {
      r, position' := ReadVarintsAt(bytes, position, n);
    } else {
      r, position' := Failure(MalformedBlock), position;
    }
  }

  /** Decodes one block of `count` postings at `position`. */
  method DecodeBlockAt(bytes: seq<byte>, position: nat, count: nat) returns (r: Result<Postings>, position': nat)
    requires position <= |bytes|
    ensures Agrees(bytes, r, position', DecodeBlock(bytes[position..], count))
  {
    hide ReadByte, ReadVarint, ReadDocChannel, ReadFreqChannel, Accumulate, BitAnd, Pow2;
    if count == 0 {
      return Success(([], [])), position;
    }
    var header;
    header, position' :- ReadByteAt(bytes, position);
    HeaderFields(header);
    if BitAnd(header, 0xf0) != 0 {
      return Failure(MalformedBlock), position';
    }
    var docMode := BitAnd(header, 3);
    var freqMode := BitAnd(header / Pow2(2), 3);
    var first;
    first, position' :- ReadVarintAt(bytes, position');
    var deltas;
    deltas, position' :- ReadDocChannelAt(bytes, position', docMode, count - 1);
    var docIds :- Rebuild(first, deltas);
    var freqs;
    freqs, position' :- ReadFreqChannelAt(bytes, position', freqMode, count);
    r := Success((docIds, freqs));
  }
}
