/** Fixed-width bit packing, low bits first. A run of bytes is read as one little-endian
    number whose base-`2^width` digits are the packed values. */
module BitPacking {
  import opened BitOps
  import opened Bytes

  function LittleEndian(bs: seq<byte>): nat {
    if bs == [] then 0 else bs[0] + 256 * LittleEndian(bs[1..])
  }

  function ToBytes(x: nat, n: nat): (r: seq<byte>)
    ensures |r| == n
  {
    if n == 0 then [] else [x % 256] + ToBytes(x / 256, n - 1)
  }

  /** The number whose base-`2^width` digits, lowest first, are the values cut to `width` bits. */
  function PackedNumber(values: seq<nat>, width: nat): nat {
    if values == [] then 0
    else Low(values[0], width) + Shl(PackedNumber(values[1..], width), width)
  }

  function UnpackNumber(x: nat, count: nat, width: nat): (r: seq<nat>)
    ensures |r| == count
  {
    if count == 0 then [] else [Low(x, width)] + UnpackNumber(Shr(x, width), count - 1, width)
  }

  function PackedLen(count: nat, width: nat): nat {
    (count * width + 7) / 8
  }

  function PackBits(values: seq<nat>, width: nat): (r: seq<byte>)
    ensures |r| == PackedLen(|values|, width)
  {
    ToBytes(PackedNumber(values, width), PackedLen(|values|, width))
  }

  function UnpackBits(s: seq<byte>, count: nat, width: nat): (r: Parse<seq<u32>>)
    requires width <= 32
    ensures r.Ok? ==> |r.value| == count && |r.rest| <= |s|
  {
    var n := PackedLen(count, width);
    if |s| < n then Err(UnexpectedEof)
    else
      U32Digits(LittleEndian(s[..n]), count, width);
      Ok(UnpackNumber(LittleEndian(s[..n]), count, width), s[n..])
  }

  lemma {:induction false} U32Digits(x: nat, count: nat, width: nat)
    requires width <= 32
    ensures forall i :: 0 <= i < count ==> UnpackNumber(x, count, width)[i] < U32_LIMIT
    decreases count
  {
    hide Shr, Low, Pow2;
    if count > 0 {
      U32Digits(Shr(x, width), count - 1, width);
      LowU32(x, width);
    }
  }

  lemma LowU32(x: nat, width: nat)
    requires width <= 32
    ensures Low(x, width) < U32_LIMIT
  {
    hide Low, Pow2;
    Pow2Values();
    Pow2Monotonic(width, 32);
  }

  // Digits of the packed number

  lemma {:induction false} PackedNumberBound(values: seq<nat>, width: nat)
    ensures PackedNumber(values, width) < Pow2(|values| * width)
  {
    hide Pow2, Shl, Low;
    if values == [] {
    } else {
      PackedNumberBound(values[1..], width);
      MulSplit(width, |values| - 1, 1);
      JoinBound(Low(values[0], width), PackedNumber(values[1..], width), width, |values[1..]| * width);
    }
  }

  lemma {:induction false} UnpackPacked(values: seq<nat>, width: nat)
    requires forall i :: 0 <= i < |values| ==> values[i] < Pow2(width)
    ensures UnpackNumber(PackedNumber(values, width), |values|, width) == values
  {
    hide Pow2, Shl, Shr, Low;
    if values != [] {
      UnpackPacked(values[1..], width);
      LowSmall(values[0], width);
      Join(values[0], PackedNumber(values[1..], width), width);
    }
  }

  lemma {:induction false} LittleEndianOfToBytes(x: nat, n: nat)
    requires x < Pow2(8 * n)
    ensures LittleEndian(ToBytes(x, n)) == x
  {
    if n > 0 {
      assert x / 256 < Pow2(8 * (n - 1)) by {
        hide Shr, Pow2;
        ShiftByte(x);
        ShrBound(x, 8, 8 * (n - 1));
      }
      LittleEndianOfToBytes(x / 256, n - 1);
      assert ToBytes(x, n)[1..] == ToBytes(x / 256, n - 1);
    }
  }

  /** Values that fit in `width` bits come back, and what follows the packed bytes is left. */
  lemma PackRoundTrip(values: seq<u32>, width: nat, t: seq<byte>)
    requires width <= 32
    requires forall i :: 0 <= i < |values| ==> values[i] < Pow2(width)
    ensures UnpackBits(PackBits(values, width) + t, |values|, width) == Ok(values, t)
  {
    hide Pow2, LittleEndian, ToBytes, PackedNumber, UnpackNumber;
    var n := PackedLen(|values|, width);
    var packed := PackBits(values, width);
    PackedNumberBound(values, width);
    Pow2Monotonic(|values| * width, 8 * n);
    LittleEndianOfToBytes(PackedNumber(values, width), n);
    UnpackPacked(values, width);
    assert (packed + t)[..n] == packed;
    assert (packed + t)[n..] == t;
  }

  lemma UnpackAppend(s: seq<byte>, t: seq<byte>, count: nat, width: nat)
    requires width <= 32
    ensures Extends(UnpackBits(s, count, width), UnpackBits(s + t, count, width), t)
  {
    hide LittleEndian, UnpackNumber;
    var n := PackedLen(count, width);
    if n <= |s| {
      assert (s + t)[..n] == s[..n];
      assert (s + t)[n..] == s[n..] + t;
    }
  }

  // Writing

  lemma PackedNumberCons(v: nat, tail: seq<nat>, width: nat)
    ensures PackedNumber([v] + tail, width) == Low(v, width) + Shl(PackedNumber(tail, width), width)
  {
    hide Shl, Low;
    assert ([v] + tail)[1..] == tail;
  }

  lemma {:induction false} PackedNumberSnoc(values: seq<nat>, v: nat, width: nat)
    ensures PackedNumber(values + [v], width)
         == PackedNumber(values, width) + Shl(Low(v, width), |values| * width)
  {
    hide Pow2, Shl, Low, PackedNumber;
    var low := Low(v, width);
    if values == [] {
      assert values + [v] == [v] + [];
      PackedNumberCons(v, [], width);
      NothingPacked(width);
      ShiftNothing(low);
      ShlZero(width);
    } else {
      var tail := values[1..];
      assert values == [values[0]] + tail && values + [v] == [values[0]] + (tail + [v]);
      PackedNumberCons(values[0], tail, width);
      PackedNumberCons(values[0], tail + [v], width);
      PackedNumberSnoc(tail, v, width);
      MulSplit(width, |tail|, 1);
      ShlSum(PackedNumber(tail, width), Shl(low, |tail| * width), width);
      ShlShl(low, |tail| * width, width);
    }
  }

  lemma NothingPacked(width: nat)
    ensures PackedNumber([], width) == 0
  {
  }

  lemma ShlZero(k: nat)
    ensures Shl(0, k) == 0
  {
  }

  lemma {:induction false} LittleEndianUpdate(bs: seq<byte>, i: nat, b: byte)
    requires i < |bs|
    ensures LittleEndian(bs[i := b]) == LittleEndian(bs) + Shl(b, 8 * i) - Shl(bs[i], 8 * i)
  {
    hide Pow2, Shl;
    if i == 0 {
      assert bs[0 := b][1..] == bs[1..];
      ShiftNothing(b);
      ShiftNothing(bs[0]);
    } else {
      LittleEndianUpdate(bs[1..], i - 1, b);
      assert bs[i := b][1..] == bs[1..][i - 1 := b];
      ShlShl(b, 8 * (i - 1), 8);
      ShiftByte(Shl(b, 8 * (i - 1)));
      ShlShl(bs[i], 8 * (i - 1), 8);
      ShiftByte(Shl(bs[i], 8 * (i - 1)));
    }
  }

  lemma {:induction false} LittleEndianAt(bs: seq<byte>, i: nat)
    requires i < |bs|
    ensures Low(Shr(LittleEndian(bs), 8 * i), 8) == bs[i]
  {
    hide Pow2, Shr, Low;
    var x := LittleEndian(bs);
    if i == 0 {
      ShiftNothing(x);
      ShiftByte(x);
    } else {
      LittleEndianAt(bs[1..], i - 1);
      ShiftByte(x);
      ShrShr(x, 8, 8 * (i - 1));
    }
  }

  lemma ByteBelowCursor(bs: seq<byte>, i: nat, bit: nat)
    requires i < |bs| && bit < 8 && LittleEndian(bs) < Pow2(8 * i + bit)
    ensures bs[i] < Pow2(bit)
  {
    hide Pow2, Shr, Low, LittleEndian;
    var x := LittleEndian(bs);
    LittleEndianAt(bs, i);
    ShrBound(x, 8 * i, bit);
    Pow2Monotonic(bit, 8);
    LowSmall(Shr(x, 8 * i), 8);
  }

  /** One `out[byte] |= chunk << bit`. */
  lemma OrByte(bs: seq<byte>, i: nat, bit: nat, chunk: nat, take: nat)
    requires i < |bs| && bit < 8 && LittleEndian(bs) < Pow2(8 * i + bit)
    requires take <= 8 - bit && chunk < Pow2(take)
    ensures BitOr(bs[i], Shl(chunk, bit)) < 256
    ensures LittleEndian(bs[i := BitOr(bs[i], Shl(chunk, bit))]) == LittleEndian(bs) + Shl(chunk, 8 * i + bit)
  {
    hide Pow2, Shl, BitOr, LittleEndian;
    ByteBelowCursor(bs, i, bit);
    OrShl(bs[i], chunk, bit);
    JoinBound(bs[i], chunk, bit, take);
    Pow2Monotonic(bit + take, 8);
    Pow2Values();
    var b := bs[i] + Shl(chunk, bit);
    LittleEndianUpdate(bs, i, b);
    ShlSum(bs[i], Shl(chunk, bit), 8 * i);
    ShlShl(chunk, bit, 8 * i);
  }

  /** The inner loop of `pack_bits`: writes the low `width` bits of `value` at `cursor`. */
  method PutBits(out: seq<byte>, start: nat, cursor: nat, value: u32, width: nat) returns (out': seq<byte>)
    requires start <= |out| && cursor + width <= 8 * (|out| - start)
    requires LittleEndian(out[start..]) < Pow2(cursor)
    ensures |out'| == |out| && out'[..start] == out[..start]
    ensures LittleEndian(out'[start..]) == LittleEndian(out[start..]) + Shl(Low(value, width), cursor)
    ensures LittleEndian(out'[start..]) < Pow2(cursor + width)
  {
    hide Pow2, Shl, Shr, Low, BitAnd, BitOr, LittleEndian;
    out' := out;
    var bitCursor, remaining, rest: nat := cursor, width, value;
    ghost var done := 0;
    ShiftNothing(value);
    ShlZero(cursor);
    while remaining > 0
      invariant done + remaining == width && bitCursor == cursor + done
      invariant rest == Shr(value, done)
      invariant |out'| == |out| && out'[..start] == out[..start]
      invariant LittleEndian(out'[start..]) == LittleEndian(out[start..]) + Shl(Low(value, done), cursor)
      invariant LittleEndian(out'[start..]) < Pow2(bitCursor)
    {
      var byteIndex := bitCursor / 8;
      var bitInByte := bitCursor % 8;
      var take := if remaining < 8 - bitInByte then remaining else 8 - bitInByte;
      AndLow(rest, take);
      var chunk := BitAnd(rest, Pow2(take) - 1);
      ghost var region := out'[start..];
      OrByte(region, byteIndex, bitInByte, chunk, take);
      var b := BitOr(out'[start + byteIndex], Shl(chunk, bitInByte));
      out' := out'[start + byteIndex := b];
      assert out'[start..] == region[byteIndex := b];
      PutStep(cursor, value, done, take);
      JoinBound(LittleEndian(region), chunk, bitCursor, take);
      rest := Shr(rest, take);
      bitCursor := bitCursor + take;
      remaining := remaining - take;
      done := done + take;
    }
  }

  lemma PutStep(cursor: nat, value: nat, done: nat, take: nat)
    ensures Shl(Low(value, done), cursor) + Shl(Low(Shr(value, done), take), cursor + done)
         == Shl(Low(value, done + take), cursor)
    ensures Shr(Shr(value, done), take) == Shr(value, done + take)
  {
    hide Pow2, Shl, Shr, Low;
    ShrShr(value, done, take);
    LowSplit(value, done, take);
    var chunk := Low(Shr(value, done), take);
    ShlSum(Low(value, done), Shl(chunk, done), cursor);
    ShlShl(chunk, done, cursor);
  }

  lemma {:induction false} ZerosAreZero(bs: seq<byte>)
    requires forall i :: 0 <= i < |bs| ==> bs[i] == 0
    ensures LittleEndian(bs) == 0
  {
    if bs != [] {
      ZerosAreZero(bs[1..]);
    }
  }

  lemma {:induction false} ToBytesOfLittleEndian(bs: seq<byte>)
    ensures ToBytes(LittleEndian(bs), |bs|) == bs
  {
    if bs != [] {
      ToBytesOfLittleEndian(bs[1..]);
      LowByte(bs[0], LittleEndian(bs[1..]));
      assert bs == [bs[0]] + bs[1..];
    }
  }

  lemma LowByte(b: byte, x: nat)
    ensures (b + 256 * x) % 256 == b && (b + 256 * x) / 256 == x
  {
  }

  method Pack(out: seq<byte>, values: seq<u32>, width: nat) returns (out': seq<byte>)
    ensures out' == out + PackBits(values, width)
  {
    hide Pow2, Shl, Low, LittleEndian, PackedNumber, ToBytes;
    PackNothing(values, width);
    if width == 0 || values == [] {
      return out;
    }
    var start := |out|;
    var n := PackedLen(|values|, width);
    out' := out + seq(n, _ => 0);
    assert out'[start..] == seq(n, _ => 0);
    ZerosAreZero(out'[start..]);
    var bitCursor := 0;
    for i := 0 to |values|
      invariant bitCursor == i * width
      invariant |out'| == start + n && out'[..start] == out
      invariant LittleEndian(out'[start..]) == PackedNumber(values[..i], width)
      invariant LittleEndian(out'[start..]) < Pow2(bitCursor)
    {
      CursorFits(i, |values|, width);
      PackedNumberSnoc(values[..i], values[i], width);
      assert values[..i] + [values[i]] == values[..i + 1];
      out' := PutBits(out', start, bitCursor, values[i], width);
      bitCursor := bitCursor + width;
    }
    assert values[..|values|] == values;
    ToBytesOfLittleEndian(out'[start..]);
    assert out' == out + out'[start..];
  }

  lemma PackNothing(values: seq<u32>, width: nat)
    ensures PackedNumber([], width) == 0
    ensures width == 0 || values == [] ==> PackBits(values, width) == []
  {
    if width == 0 {
      assert |values| * width == 0;
    }
  }

  lemma CursorFits(i: nat, count: nat, width: nat)
    requires i < count
    ensures i * width + width == (i + 1) * width <= 8 * PackedLen(count, width)
  {
    MulMonotonic(width, i + 1, count);
  }

  // Reading

  /** One `(byte >> bit) & mask`. */
  lemma TakeChunk(bs: seq<byte>, i: nat, bit: nat, take: nat)
    requires i < |bs| && bit + take <= 8
    ensures BitAnd(Shr(bs[i], bit), Pow2(take) - 1) == Low(Shr(LittleEndian(bs), 8 * i + bit), take)
  {
    hide Pow2, Shr, Low, BitAnd, LittleEndian;
    var x := LittleEndian(bs);
    LittleEndianAt(bs, i);
    AndLow(Shr(bs[i], bit), take);
    LowShr(Shr(x, 8 * i), bit, 8 - bit);
    ShrShr(x, 8 * i, bit);
    LowLow(Shr(x, 8 * i + bit), take, 8 - bit - take);
  }

  /** The inner loop of `unpack_bits`: reads `width` bits at `cursor`. */
  method GetBits(slice: seq<byte>, cursor: nat, width: nat) returns (value: nat)
    requires width <= 32 && cursor + width <= 8 * |slice|
    ensures value == Low(Shr(LittleEndian(slice), cursor), width)
  {
    hide Pow2, Shl, Shr, Low, BitAnd, BitOr, LittleEndian;
    value := 0;
    var collected, bitCursor := 0, cursor;
    ghost var x := Shr(LittleEndian(slice), cursor);
    ShiftNothing(x);
    while collected < width
      invariant collected <= width && bitCursor == cursor + collected
      invariant value == Low(x, collected)
    {
      var byteIndex := bitCursor / 8;
      var bitInByte := bitCursor % 8;
      var take := if width - collected < 8 - bitInByte then width - collected else 8 - bitInByte;
      TakeChunk(slice, byteIndex, bitInByte, take);
      var chunk := BitAnd(Shr(slice[byteIndex], bitInByte), Pow2(take) - 1);
      ShrShr(LittleEndian(slice), cursor, collected);
      LowSplit(x, collected, take);
      OrShl(value, chunk, collected);
      value := BitOr(value, Shl(chunk, collected));
      bitCursor := bitCursor + take;
      collected := collected + take;
    }
  }

  lemma UnpackBitsAt(bytes: seq<byte>, position: nat, count: nat, width: nat)
    requires position <= |bytes| && width <= 32
    ensures var spec, n := UnpackBits(bytes[position..], count, width), PackedLen(count, width);
      if position + n > |bytes| then spec == Err(UnexpectedEof)
      else spec == Ok(UnpackNumber(LittleEndian(bytes[position..position + n]), count, width), bytes[position + n..])
  {
    hide LittleEndian, UnpackNumber;
    var n := PackedLen(count, width);
    if position + n <= |bytes| {
      assert bytes[position..][..n] == bytes[position..position + n];
      assert bytes[position..][n..] == bytes[position + n..];
    }
  }

  method UnpackAt(bytes: seq<byte>, position: nat, count: nat, width: nat)
    returns (r: Result<seq<u32>>, position': nat)
    requires position <= |bytes| && width <= 32
    ensures Agrees(bytes, r, position', UnpackBits(bytes[position..], count, width))
  {
    hide Pow2, Shr, Low, LittleEndian, UnpackNumber, UnpackBits, PackedLen;
    var byteLen := PackedLen(count, width);
    UnpackBitsAt(bytes, position, count, width);
    if count == 0 {
      NothingToUnpack(width);
      return Success([]), position;
    }
    if position + byteLen > |bytes| {
      return Failure(UnexpectedEof), position;
    }
    var slice := bytes[position..position + byteLen];
    ghost var n := LittleEndian(slice);
    var out: seq<u32> := [];
    var bitCursor := 0;
    ShiftNothing(n);
    for i := 0 to count
      invariant bitCursor == i * width
      invariant out + UnpackNumber(Shr(n, bitCursor), count - i, width) == UnpackNumber(n, count, width)
    {
      CursorFits(i, count, width);
      var value := GetBits(slice, bitCursor, width);
      UnpackStep(n, bitCursor, count - i, width);
      out := out + [value];
      bitCursor := bitCursor + width;
    }
    assert out + UnpackNumber(Shr(n, bitCursor), 0, width) == out;
    assert out == UnpackNumber(n, count, width);
    position' := position + byteLen;
    r := Success(out);
  }

  lemma NothingToUnpack(width: nat)
    ensures PackedLen(0, width) == 0
  {
  }

  lemma UnpackStep(n: nat, cursor: nat, count: nat, width: nat)
    requires count > 0 && width <= 32
    ensures Low(Shr(n, cursor), width) < U32_LIMIT
    ensures UnpackNumber(Shr(n, cursor), count, width)
         == [Low(Shr(n, cursor), width)] + UnpackNumber(Shr(n, cursor + width), count - 1, width)
  {
    hide Pow2, Shr, Low;
    ShrShr(n, cursor, width);
    LowU32(Shr(n, cursor), width);
  }

  // The layout, bit by bit

  lemma {:induction false} LittleEndianBit(bs: seq<byte>, p: nat)
    ensures Bit(LittleEndian(bs), p) <==> (p < 8 * |bs| && Bit(bs[p / 8], p % 8))
  {
    hide Bit;
    if bs == [] {
      ZeroBit(p);
    } else {
      var rest := LittleEndian(bs[1..]);
      ByteJoin(bs[0], rest, p);
      if p >= 8 {
        LittleEndianBit(bs[1..], p - 8);
      }
    }
  }

  lemma ByteJoin(b: byte, x: nat, p: nat)
    ensures Bit(b + 256 * x, p) <==> if p < 8 then Bit(b, p) else Bit(x, p - 8)
  {
    hide Bit;
    ShiftByte(x);
    assert Pow2(8) == 256;
    BitJoin(b, x, 8, p);
  }

  lemma DivStep(p: nat, width: nat)
    requires width > 0 && p >= width
    ensures (p - width) / width == p / width - 1 && (p - width) % width == p % width && p / width >= 1
  {
    MulSplit(width, p / width, -1);
    DivModUnique(p - width, width, p / width - 1, p % width);
    if p / width < 1 {
      MulMonotonic(width, p / width, 0);
    }
  }

  lemma {:induction false} PackedNumberBit(values: seq<nat>, width: nat, p: nat)
    requires width > 0
    ensures p / width >= 0 && p % width >= 0
    ensures Bit(PackedNumber(values, width), p) <==> (p / width < |values| && Bit(values[p / width], p % width))
  {
    hide Bit, Low, Shl, Pow2;
    DivNonNegative(p, width);
    if values == [] {
      ZeroBit(p);
    } else {
      var rest := PackedNumber(values[1..], width);
      BitJoin(Low(values[0], width), rest, width, p);
      if p < width {
        DivModUnique(p, width, 0, p);
        LowBit(values[0], width, p);
      } else {
        DivStep(p, width);
        PackedNumberBit(values[1..], width, p - width);
      }
    }
  }

  /** Bit `p` of the packed bytes, counted from the lowest bit of the first byte, is bit
      `p % width` of value `p / width`, and 0 past the last value. */
  lemma PackedLayout(values: seq<nat>, width: nat, p: nat)
    requires width > 0 && p < 8 * PackedLen(|values|, width)
    ensures p / width >= 0 && p % width >= 0
    ensures Bit(PackBits(values, width)[p / 8], p % 8) <==> (p / width < |values| && Bit(values[p / width], p % width))
  {
    hide Bit, PackedNumber, LittleEndian, ToBytes, Pow2;
    var n := PackedLen(|values|, width);
    PackedNumberBound(values, width);
    Pow2Monotonic(|values| * width, 8 * n);
    LittleEndianOfToBytes(PackedNumber(values, width), n);
    LittleEndianBit(PackBits(values, width), p);
    PackedNumberBit(values, width, p);
  }
}
