/** The byte layout of one self-contained block of at most 128 postings: what each choice of
    channel modes writes, and what the decoder makes of arbitrary bytes. */
module BlockFormat {
  import opened BitOps
  import opened Bytes
  import opened Leb128
  import opened BitPacking

  const FOR_BLOCK_SIZE := 128
  const MAX_PACKED_WIDTH := 32

  /** How the doc-id channel of a block is written. */
  datatype DocPlan = VarintDeltas | Packed(width: nat) | Patched(width: nat, exceptions: nat)

  /** How the frequency channel of a block is written. */
  datatype FreqPlan = AllOnes | Constant | PackedFreqs(width: nat) | VarintFreqs

  type Postings = (seq<u32>, seq<u32>)

  /** The postings a block may hold. */
  ghost predicate ValidBlock(docs: seq<u32>, freqs: seq<u32>) {
    1 <= |docs| <= FOR_BLOCK_SIZE && |freqs| == |docs| && StrictlyIncreasing(docs)
  }

  function Deltas(docs: seq<u32>): (r: seq<u32>)
    requires StrictlyIncreasing(docs)
    ensures |docs| == 0 ==> r == []
    ensures |docs| > 0 ==> |r| == |docs| - 1
    ensures forall i :: 0 <= i < |r| ==> r[i] >= 1
  {
    if |docs| <= 1 then [] else [docs[1] - docs[0]] + Deltas(docs[1..])
  }

  // Encoding

  function Varints(values: seq<u32>): seq<byte> {
    if values == [] then [] else Varint(values[0]) + Varints(values[1..])
  }

  predicate IsException(delta: u32, width: nat) {
    delta >= Pow2(width)
  }

  /** The deltas with every exception replaced by 0. */
  function Base(deltas: seq<u32>, width: nat): (r: seq<u32>)
    ensures |r| == |deltas|
    ensures forall i :: 0 <= i < |r| ==> r[i] == if IsException(deltas[i], width) then 0 else deltas[i]
  {
    if deltas == [] then []
    else [if IsException(deltas[0], width) then 0 else deltas[0]] + Base(deltas[1..], width)
  }

  function ExceptionCount(deltas: seq<u32>, width: nat): (n: nat)
    ensures n <= |deltas|
  {
    if deltas == [] then 0
    else (if IsException(deltas[0], width) then 1 else 0) + ExceptionCount(deltas[1..], width)
  }

  /** The exceptions among `deltas`, whose first element sits at position `at` of the block. */
  function ExceptionList(deltas: seq<u32>, width: nat, at: nat): seq<byte>
    requires at + |deltas| <= 256
  {
    if deltas == [] then []
    else if IsException(deltas[0], width) then
      [at] + (Varint(deltas[0]) + ExceptionList(deltas[1..], width, at + 1))
    else ExceptionList(deltas[1..], width, at + 1)
  }

  ghost predicate ValidDocPlan(plan: DocPlan, deltas: seq<u32>) {
    match plan
    case VarintDeltas => true
    case Packed(width) =>
      1 <= width <= MAX_PACKED_WIDTH && forall i :: 0 <= i < |deltas| ==> !IsException(deltas[i], width)
    case Patched(width, exceptions) =>
      1 <= width < MAX_PACKED_WIDTH && exceptions == ExceptionCount(deltas, width) >= 1
  }

  ghost predicate ValidFreqPlan(plan: FreqPlan, freqs: seq<u32>) {
    match plan
    case AllOnes => forall i :: 0 <= i < |freqs| ==> freqs[i] == 1
    case Constant => |freqs| > 0 && freqs[0] != 1 && forall i :: 0 <= i < |freqs| ==> freqs[i] == freqs[0]
    case PackedFreqs(width) =>
      1 <= width <= MAX_PACKED_WIDTH && forall i :: 0 <= i < |freqs| ==> freqs[i] < Pow2(width)
    case VarintFreqs => true
  }

  function DocMode(plan: DocPlan): (m: nat)
    ensures m < 3
  {
    match plan case VarintDeltas => 0 case Packed(_) => 1 case Patched(_, _) => 2
  }

  function FreqMode(plan: FreqPlan): (m: nat)
    ensures m < 4
  {
    match plan case AllOnes => 0 case Constant => 1 case PackedFreqs(_) => 2 case VarintFreqs => 3
  }

  function DocChannel(plan: DocPlan, deltas: seq<u32>): seq<byte>
    requires |deltas| < FOR_BLOCK_SIZE && ValidDocPlan(plan, deltas)
  {
    match plan
    case VarintDeltas => Varints(deltas)
    case Packed(width) => [width] + PackBits(deltas, width)
    case Patched(width, exceptions) =>
      [width] + ([exceptions] + (PackBits(Base(deltas, width), width) + ExceptionList(deltas, width, 0)))
  }

  function FreqChannel(plan: FreqPlan, freqs: seq<u32>): seq<byte>
    requires ValidFreqPlan(plan, freqs)
  {
    match plan
    case AllOnes => []
    case Constant => Varint(freqs[0])
    case PackedFreqs(width) => [width] + PackBits(freqs, width)
    case VarintFreqs => Varints(freqs)
  }

  /** The bytes of a block written with the given channel modes. */
  function BlockWith(plan: DocPlan, freqPlan: FreqPlan, docs: seq<u32>, freqs: seq<u32>): seq<byte>
    requires ValidBlock(docs, freqs)
    requires ValidDocPlan(plan, Deltas(docs)) && ValidFreqPlan(freqPlan, freqs)
  {
    [DocMode(plan) + 4 * FreqMode(freqPlan)]
    + (Varint(docs[0]) + (DocChannel(plan, Deltas(docs)) + FreqChannel(freqPlan, freqs)))
  }

  // Decoding

  function ReadByte(s: seq<byte>): (r: Parse<byte>)
    ensures r.Ok? ==> |r.rest| < |s|
  {
    if s == [] then Err(UnexpectedEof) else Ok(s[0], s[1..])
  }

  function ReadVarints(s: seq<byte>, n: nat): (r: Parse<seq<u32>>)
    ensures r.Ok? ==> |r.value| == n && |r.rest| <= |s|
  {
    if n == 0 then Ok([], s)
    else
      match ReadVarint(s)
      case Err(e) => Err(e)
      case Ok(v, rest) =>
        match ReadVarints(rest, n - 1)
        case Err(e) => Err(e)
        case Ok(vs, rest') => Ok([v] + vs, rest')
  }

  function ReadWidth(s: seq<byte>): (r: Parse<nat>)
    ensures r.Ok? ==> 1 <= r.value <= MAX_PACKED_WIDTH && |r.rest| < |s|
  {
    match ReadByte(s)
    case Err(e) => Err(e)
    case Ok(width, rest) => if width == 0 || width > MAX_PACKED_WIDTH then Err(MalformedBlock) else Ok(width, rest)
  }

  /** Reads a width byte, then `n` values of that width. */
  function ReadPacked(s: seq<byte>, n: nat): (r: Parse<seq<u32>>)
    ensures r.Ok? ==> |r.value| == n && |r.rest| <= |s|
  {
    match ReadWidth(s)
    case Err(e) => Err(e)
    case Ok(width, rest) => UnpackBits(rest, n, width)
  }

  /** Patches `n` exceptions into `deltas`, at positions from `from` on. */
  function ReadExceptions(s: seq<byte>, n: nat, deltas: seq<u32>, width: nat, from: nat): (r: Parse<seq<u32>>)
    ensures r.Ok? ==> |r.value| == |deltas| && |r.rest| <= |s|
    decreases n
  {
    if n == 0 then Ok(deltas, s)
    else
      match ReadByte(s)
      case Err(e) => Err(e)
      case Ok(index, rest) =>
        if index >= |deltas| || index < from then Err(MalformedBlock)
        else
          match ReadVarint(rest)
          case Err(e) => Err(e)
          case Ok(value, rest') =>
            if !IsException(value, width) || deltas[index] != 0 then Err(MalformedBlock)
            else ReadExceptions(rest', n - 1, deltas[index := value], width, index + 1)
  }

  function ReadPatched(s: seq<byte>, n: nat): (r: Parse<seq<u32>>)
    ensures r.Ok? ==> |r.value| == n && |r.rest| <= |s|
  {
    match ReadWidth(s)
    case Err(e) => Err(e)
    case Ok(width, rest) =>
      if width >= MAX_PACKED_WIDTH then Err(MalformedBlock)
      else
        match ReadByte(rest)
        case Err(e) => Err(e)
        case Ok(exceptions, rest') =>
          if exceptions == 0 || exceptions > n then Err(MalformedBlock)
          else
            match UnpackBits(rest', n, width)
            case Err(e) => Err(e)
            case Ok(base, rest'') => ReadExceptions(rest'', exceptions, base, width, 0)
  }

  function ReadDocChannel(s: seq<byte>, mode: nat, n: nat): (r: Parse<seq<u32>>)
    ensures r.Ok? ==> |r.value| == n && |r.rest| <= |s|
  {
    if mode == 0 then ReadVarints(s, n)
    else if mode == 1 then ReadPacked(s, n)
    else if mode == 2 then ReadPatched(s, n)
    else Err(MalformedBlock)
  }

  function Repeated(v: u32, n: nat): (r: seq<u32>)
    ensures |r| == n
    ensures forall i :: 0 <= i < n ==> r[i] == v
  {
    seq(n, _ => v)
  }

  function ReadFreqChannel(s: seq<byte>, mode: nat, n: nat): (r: Parse<seq<u32>>)
    ensures r.Ok? ==> |r.value| == n && |r.rest| <= |s|
  {
    if mode == 0 then Ok(Repeated(1, n), s)
    else if mode == 1 then
      match ReadVarint(s)
      case Err(e) => Err(e)
      case Ok(constant, rest) => if constant == 1 then Err(MalformedBlock) else Ok(Repeated(constant, n), rest)
    else if mode == 2 then ReadPacked(s, n)
    else if mode == 3 then ReadVarints(s, n)
    else Err(MalformedBlock)
  }

  /** The ids that follow `previous`, or `NotMonotonic` on a zero delta or an id past `u32`. */
  function Accumulate(previous: u32, deltas: seq<u32>): (r: Result<seq<u32>>)
    ensures r.Success? ==> |r.value| == |deltas| && StrictlyIncreasing([previous] + r.value)
    ensures r.Failure? ==> r.error == NotMonotonic
    decreases deltas
  {
    if deltas == [] then Success([])
    else if deltas[0] == 0 || previous + deltas[0] >= U32_LIMIT then Failure(NotMonotonic)
    else
      var value := previous + deltas[0];
      match Accumulate(value, deltas[1..])
      case Failure(e) => Failure(e)
      case Success(rest) =>
        IncreasingCons(previous, [value] + rest);
        Success([value] + rest)
  }

  lemma IncreasingCons(x: int, s: seq<int>)
    requires s != [] && x < s[0] && StrictlyIncreasing(s)
    ensures StrictlyIncreasing([x] + s)
  {
  }

  /** Reads one block of `count` postings from the front of `s`. */
  function DecodeBlock(s: seq<byte>, count: nat): (r: Parse<Postings>)
    ensures r.Ok? ==> |r.rest| <= |s| && |r.value.0| == |r.value.1| == count && StrictlyIncreasing(r.value.0)
  {
    if count == 0 then Ok(([], []), s)
    else
      match ReadByte(s)
      case Err(e) => Err(e)
      case Ok(header, rest) =>
        if header >= 16 then Err(MalformedBlock)
        else
          match ReadVarint(rest)
          case Err(e) => Err(e)
          case Ok(first, rest') => DecodeChannels(rest', header % 4, header / 4, first, count)
  }

  function DecodeChannels(s: seq<byte>, docMode: nat, freqMode: nat, first: u32, count: nat): (r: Parse<Postings>)
    requires count > 0
    ensures r.Ok? ==> |r.rest| <= |s| && |r.value.0| == |r.value.1| == count && StrictlyIncreasing(r.value.0)
  {
    match ReadDocChannel(s, docMode, count - 1)
    case Err(e) => Err(e)
    case Ok(deltas, rest) =>
      match Accumulate(first, deltas)
      case Failure(e) => Err(e)
      case Success(ids) =>
        match ReadFreqChannel(rest, freqMode, count)
        case Err(e) => Err(e)
        case Ok(freqs, rest') => Ok(([first] + ids, freqs), rest')
  }
}
