/** The grammar of a block. The decoder accepts exactly its sentences, so what it makes of a
    byte string can be told without running it. */
module BlockGrammar {
  import opened Sequences
  import opened BitOps
  import opened Bytes
  import opened Leb128
  import opened BitPacking
  import opened BlockFormat
  import opened BlockRoundTrip
  import opened BlockPlanning
  import opened BlockMinimality
  import opened BlockedPostings

  // Numbers

  /** The value in groups of seven bits, in at most five bytes, spare groups allowed. */
  ghost predicate IsNumber(bs: seq<byte>, v: u32) {
    IsVarint(bs) && |bs| <= 5 && GroupSum(bs) == v
  }

  /** The values one after the other. */
  ghost predicate AreNumbers(bs: seq<byte>, vs: seq<u32>)
    decreases |vs|
  {
    if vs == [] then bs == []
    else exists k | 0 < k <= |bs| :: IsNumber(bs[..k], vs[0]) && AreNumbers(bs[k..], vs[1..])
  }

  /** A fifth group holds four bits of a 32-bit value. */
  lemma FifthGroup(bs: seq<byte>)
    requires |bs| == 5 && bs[4] < 128
    ensures GroupSum(bs) < U32_LIMIT <==> bs[4] < 16
  {
    assert GroupSum(bs) == bs[0] % 128 + 128 * GroupSum(bs[1..]);
    assert GroupSum(bs[1..]) == bs[1] % 128 + 128 * GroupSum(bs[1..][1..]);
    assert bs[1..][1..] == bs[2..];
    assert GroupSum(bs[2..]) == bs[2] % 128 + 128 * GroupSum(bs[2..][1..]);
    assert bs[2..][1..] == bs[3..];
    assert GroupSum(bs[3..]) == bs[3] % 128 + 128 * GroupSum(bs[3..][1..]);
    assert bs[3..][1..] == bs[4..];
    assert GroupSum(bs[4..]) == bs[4] % 128 + 128 * GroupSum([]);
  }

  lemma VarintAccepted(s: seq<byte>) returns (k: nat)
    requires ReadVarint(s).Ok?
    ensures 0 < k <= |s| && IsNumber(s[..k], ReadVarint(s).value) && ReadVarint(s).rest == s[k..]
  {
    hide ReadVarint, GroupSum;
    ReadVarintMeans(s);
    k := LastGroup(s) + 1;
    assert s[..k][k - 1] == s[k - 1];
  }

  lemma NumberRead(bs: seq<byte>, v: u32, rest: seq<byte>)
    requires IsNumber(bs, v)
    ensures ReadVarint(bs + rest) == Ok(v, rest)
  {
    hide ReadVarint, GroupSum, LastGroup;
    var s, n := bs + rest, LastGroup(bs + rest);
    ReadVarintMeans(s);
    assert forall i :: 0 <= i < |bs| ==> s[i] == bs[i];
    assert n == |bs| - 1;
    assert s[..n + 1] == bs && s[n + 1..] == rest;
    if n == 4 {
      FifthGroup(bs);
    }
  }

  lemma {:induction false} VarintsAccepted(s: seq<byte>, n: nat) returns (k: nat)
    requires ReadVarints(s, n).Ok?
    ensures k <= |s| && AreNumbers(s[..k], ReadVarints(s, n).value) && ReadVarints(s, n).rest == s[k..]
    decreases n
  {
    hide ReadVarint, IsNumber;
    if n == 0 {
      k := 0;
    } else {
      var i := VarintAccepted(s);
      var j := VarintsAccepted(s[i..], n - 1);
      k := i + j;
      PrefixParts(s, i, j);
      NumbersCons(s[..k], i, ReadVarint(s).value, ReadVarints(s[i..], n - 1).value);
    }
  }

  lemma {:induction false} NumbersRead(bs: seq<byte>, vs: seq<u32>, rest: seq<byte>)
    requires AreNumbers(bs, vs)
    ensures ReadVarints(bs + rest, |vs|) == Ok(vs, rest)
    decreases |vs|
  {
    hide ReadVarint, IsNumber;
    if vs == [] {
      assert bs + rest == rest;
    } else {
      hide AreNumbers, ReadVarints;
      var k := NumbersSplit(bs, vs);
      NumberRead(bs[..k], vs[0], bs[k..] + rest);
      NumbersRead(bs[k..], vs[1..], rest);
      SplitBefore(bs, k, rest);
      SplitFirst(vs, []);
      OneMoreNumber(bs + rest, vs[0], bs[k..] + rest, vs[1..], rest);
    }
  }

  lemma OneMoreNumber(s: seq<byte>, v: u32, more: seq<byte>, vs: seq<u32>, rest: seq<byte>)
    requires ReadVarint(s) == Ok(v, more) && ReadVarints(more, |vs|) == Ok(vs, rest)
    ensures ReadVarints(s, |vs| + 1) == Ok([v] + vs, rest)
  {
    hide ReadVarint;
  }

  lemma NumbersCons(bs: seq<byte>, k: nat, v: u32, vs: seq<u32>)
    requires 0 < k <= |bs| && IsNumber(bs[..k], v) && AreNumbers(bs[k..], vs)
    ensures AreNumbers(bs, [v] + vs)
  {
    hide IsNumber;
    assert ([v] + vs)[1..] == vs;
  }

  lemma NumbersSplit(bs: seq<byte>, vs: seq<u32>) returns (k: nat)
    requires vs != [] && AreNumbers(bs, vs)
    ensures 0 < k <= |bs| && IsNumber(bs[..k], vs[0]) && AreNumbers(bs[k..], vs[1..])
  {
    hide IsNumber;
    k :| 0 < k <= |bs| && IsNumber(bs[..k], vs[0]) && AreNumbers(bs[k..], vs[1..]);
  }

  // Packed values

  /** The values side by side, `width` bits each and low bits first; the bits of the last byte
      past them may be anything. */
  ghost predicate ArePacked(bs: seq<byte>, vs: seq<u32>, width: nat) {
    && |bs| == PackedLen(|vs|, width)
    && (forall i :: 0 <= i < |vs| ==> vs[i] < Pow2(width))
    && Low(LittleEndian(bs), |vs| * width) == PackedNumber(vs, width)
  }

  lemma {:induction false} DigitsOf(x: nat, n: nat, width: nat)
    ensures PackedNumber(UnpackNumber(x, n, width), width) == Low(x, n * width)
    decreases n
  {
    hide Pow2, Shl, Shr, Low, PackedNumber;
    if n == 0 {
      NothingPacked(width);
      ShiftNothing(x);
    } else {
      var high := Shr(x, width);
      DigitsOf(high, n - 1, width);
      PackedNumberCons(Low(x, width), UnpackNumber(high, n - 1, width), width);
      MulSplit(width, n - 1, 1);
      LowSplit(x, width, (n - 1) * width);
      LowOnce(x, width);
    }
  }

  lemma LowOnce(x: nat, width: nat)
    ensures Low(Low(x, width), width) == Low(x, width)
  {
    hide Low;
    LowLow(x, width, 0);
  }

  lemma UnpackAccepted(s: seq<byte>, n: nat, width: nat)
    requires width <= 32 && UnpackBits(s, n, width).Ok?
    ensures var k := PackedLen(n, width);
      k <= |s| && ArePacked(s[..k], UnpackBits(s, n, width).value, width) && UnpackBits(s, n, width).rest == s[k..]
  {
    hide Pow2, Low, PackedNumber, UnpackNumber, LittleEndian, PackedLen;
    UnpackedBelow(s, n, width);
    DigitsOf(LittleEndian(s[..PackedLen(n, width)]), n, width);
  }

  lemma PackedRead(bs: seq<byte>, vs: seq<u32>, width: nat, rest: seq<byte>)
    requires width <= 32 && ArePacked(bs, vs, width)
    ensures UnpackBits(bs + rest, |vs|, width) == Ok(vs, rest)
  {
    hide Pow2, Low, PackedNumber, UnpackNumber, LittleEndian, PackedLen;
    var x := LittleEndian(bs);
    assert (bs + rest)[..|bs|] == bs && (bs + rest)[|bs|..] == rest;
    DigitsOf(x, |vs|, width);
    DigitsBelow(x, |vs|, width);
    UnpackPacked(UnpackNumber(x, |vs|, width), width);
    UnpackPacked(vs, width);
  }

  /** A width byte, then the values. */
  ghost predicate ArePackedWithWidth(bs: seq<byte>, vs: seq<u32>) {
    bs != [] && 1 <= bs[0] <= 32 && ArePacked(bs[1..], vs, bs[0])
  }

  lemma PackedAccepted(s: seq<byte>, n: nat) returns (k: nat)
    requires ReadPacked(s, n).Ok?
    ensures k <= |s| && ArePackedWithWidth(s[..k], ReadPacked(s, n).value) && ReadPacked(s, n).rest == s[k..]
  {
    hide UnpackBits, ArePacked, PackedLen;
    var width := s[0];
    UnpackAccepted(s[1..], n, width);
    k := 1 + PackedLen(n, width);
    assert s[..k][1..] == s[1..][..k - 1];
    DropTwice(s, 1, k - 1);
  }

  lemma PackedWithWidthRead(bs: seq<byte>, vs: seq<u32>, rest: seq<byte>)
    requires ArePackedWithWidth(bs, vs)
    ensures ReadPacked(bs + rest, |vs|) == Ok(vs, rest)
  {
    hide UnpackBits, ArePacked, ReadByte;
    assert bs + rest == [bs[0]] + (bs[1..] + rest);
    ReadByteOf(bs[0], bs[1..] + rest);
    PackedRead(bs[1..], vs, bs[0], rest);
  }

  // Exceptions

  /** The values from position `at` on that `width` bits do not hold, each after its position. */
  ghost predicate AreListed(bs: seq<byte>, vs: seq<u32>, width: nat, at: nat)
    requires at <= |vs|
    decreases |vs| - at
  {
    if at == |vs| then bs == []
    else if vs[at] < Pow2(width) then AreListed(bs, vs, width, at + 1)
    else
      && bs != [] && bs[0] == at
      && exists k | 1 < k <= |bs| :: IsNumber(bs[1..k], vs[at]) && AreListed(bs[k..], vs, width, at + 1)
  }

  /** Nothing is said of values that fit. */
  lemma {:induction false} ListedLater(bs: seq<byte>, vs: seq<u32>, width: nat, at: nat, later: nat)
    requires at <= later <= |vs| && forall i :: at <= i < later ==> vs[i] < Pow2(width)
    ensures AreListed(bs, vs, width, at) <==> AreListed(bs, vs, width, later)
    decreases later - at
  {
    hide Pow2, IsNumber;
    if at < later {
      ListedLater(bs, vs, width, at + 1, later);
    }
  }

  /** What is left of the values where those that do not fit are zeroed from `from` on. */
  ghost predicate IsBaseOf(base: seq<u32>, vs: seq<u32>, width: nat, from: nat) {
    |base| == |vs| && forall i :: 0 <= i < |vs| ==> base[i] == if i >= from && vs[i] >= Pow2(width) then 0 else vs[i]
  }

  /** What the reader says of the exceptions from `from` on. */
  ghost predicate Explained(s: seq<byte>, r: Parse<seq<u32>>, base: seq<u32>, width: nat, from: nat, k: nat)
    requires r.Ok? && from <= |base|
  {
    && k <= |s| && r.rest == s[k..] && IsBaseOf(base, r.value, width, from)
    && AreListed(s[..k], r.value, width, from)
  }

  lemma {:induction false} ExceptionsAccepted(s: seq<byte>, n: nat, base: seq<u32>, width: nat, from: nat)
    returns (k: nat)
    requires ReadExceptions(s, n, base, width, from).Ok? && from <= |base|
    requires forall i :: from <= i < |base| ==> base[i] < Pow2(width)
    ensures Explained(s, ReadExceptions(s, n, base, width, from), base, width, from, k)
    decreases n
  {
    hide Pow2, ReadVarint, IsNumber, Explained;
    if n == 0 {
      k := 0;
      NothingListed(s, base, width, from);
    } else {
      var index: nat, rest := s[0], s[1..];
      var v := ReadVarint(rest).value;
      var i := VarintAccepted(rest);
      var j := ExceptionsAccepted(rest[i..], n - 1, base[index := v], width, index + 1);
      k := 1 + i + j;
      var r := ReadExceptions(rest[i..], n - 1, base[index := v], width, index + 1);
      OneMoreListed(s, r, base, width, from, index, v, i, j);
    }
  }

  lemma NothingListed(s: seq<byte>, base: seq<u32>, width: nat, from: nat)
    requires from <= |base| && forall i :: from <= i < |base| ==> base[i] < Pow2(width)
    ensures Explained(s, Ok(base, s), base, width, from, 0)
  {
    hide Pow2, IsNumber;
    ListedLater([], base, width, from, |base|);
  }

  lemma OneMoreListed(s: seq<byte>, r: Parse<seq<u32>>, base: seq<u32>, width: nat, from: nat, index: nat, v: u32,
                      i: nat, j: nat)
    requires s != [] && from <= s[0] == index < |base| && v >= Pow2(width) && base[index] == 0 && r.Ok?
    requires forall l :: from <= l < |base| ==> base[l] < Pow2(width)
    requires 0 < i <= |s| - 1 && IsNumber(s[1..][..i], v)
    requires Explained(s[1..][i..], r, base[index := v], width, index + 1, j)
    ensures Explained(s, r, base, width, from, 1 + i + j)
  {
    var rest, k, vs := s[1..], 1 + i + j, r.value;
    hide Pow2, IsNumber, AreListed;
    assert vs[index] == v;
    var bs := s[..k];
    AfterFirst(s, i, j);
    ListedHere(bs, vs, width, index, 1 + i);
    ListedLater(bs, vs, width, from, index);
  }

  lemma AfterFirst(s: seq<byte>, i: nat, j: nat)
    requires 1 + i + j <= |s|
    ensures var bs := s[..1 + i + j];
      && bs[0] == s[0] && bs[1..1 + i] == s[1..][..i] && bs[1 + i..] == s[1..][i..][..j]
      && s[1..][i..][j..] == s[1 + i + j..]
  {
    DropTwice(s, 1, i);
    DropTwice(s, 1 + i, j);
  }

  lemma ListedHere(bs: seq<byte>, vs: seq<u32>, width: nat, at: nat, k: nat)
    requires at < |vs| && vs[at] >= Pow2(width) && 1 < k <= |bs| && bs[0] == at
    requires IsNumber(bs[1..k], vs[at]) && AreListed(bs[k..], vs, width, at + 1)
    ensures AreListed(bs, vs, width, at)
  {
    hide Pow2, IsNumber;
  }

  lemma {:induction false} ListedRead(bs: seq<byte>, base: seq<u32>, vs: seq<u32>, width: nat, at: nat, from: nat,
                                      rest: seq<byte>)
    requires from <= at <= |vs| && AreListed(bs, vs, width, at) && IsBaseOf(base, vs, width, at)
    ensures ReadExceptions(bs + rest, ExceptionCount(vs[at..], width), base, width, from) == Ok(vs, rest)
    decreases |vs| - at
  {
    hide Pow2, ReadVarint, IsNumber, ExceptionCount;
    if at == |vs| {
      assert bs + rest == rest && base == vs && vs[at..] == [];
      CountNone(width);
    } else {
      CountFrom(vs, width, at);
      if vs[at] < Pow2(width) {
        ListedRead(bs, base, vs, width, at + 1, from, rest);
      } else {
        var k := ListedSplit(bs, vs, width, at);
        hide AreListed, ReadExceptions;
        var tail := bs[k..] + rest;
        ListedRead(bs[k..], base[at := vs[at]], vs, width, at + 1, at + 1, rest);
        FourParts(bs, 1, k, rest);
        ExceptionRead(bs[0], bs[1..k], vs[at], tail, ExceptionCount(vs[at + 1..], width), base, width, from, vs, rest);
      }
    }
  }

  lemma ListedSplit(bs: seq<byte>, vs: seq<u32>, width: nat, at: nat) returns (k: nat)
    requires at < |vs| && vs[at] >= Pow2(width) && AreListed(bs, vs, width, at)
    ensures 1 < k <= |bs| && bs[0] == at && IsNumber(bs[1..k], vs[at]) && AreListed(bs[k..], vs, width, at + 1)
  {
    hide Pow2, IsNumber;
    k :| 1 < k <= |bs| && IsNumber(bs[1..k], vs[at]) && AreListed(bs[k..], vs, width, at + 1);
  }

  lemma ExceptionRead(index: byte, number: seq<byte>, v: u32, tail: seq<byte>, n: nat, base: seq<u32>, width: nat,
                      from: nat, vs: seq<u32>, rest: seq<byte>)
    requires from <= index < |base| && base[index] == 0 && v >= Pow2(width) && IsNumber(number, v)
    requires var next: nat := index; ReadExceptions(tail, n, base[index := v], width, next + 1) == Ok(vs, rest)
    ensures ReadExceptions([index] + ([] + (number + tail)), n + 1, base, width, from) == Ok(vs, rest)
  {
    hide Pow2, ReadVarint, IsNumber, ReadByte;
    assert [] + (number + tail) == number + tail;
    ReadByteOf(index, number + tail);
    NumberRead(number, v, tail);
  }

  lemma CountNone(width: nat)
    ensures ExceptionCount([], width) == 0
  {
  }

  lemma CountFrom(vs: seq<u32>, width: nat, at: nat)
    requires at < |vs|
    ensures ExceptionCount(vs[at..], width)
      == ExceptionCount(vs[at + 1..], width) + if vs[at] >= Pow2(width) then 1 else 0
  {
    hide Pow2;
    assert vs[at..][1..] == vs[at + 1..];
  }

  /** A width byte, the number of values too wide, the values with those zeroed, and those. */
  ghost predicate ArePatched(bs: seq<byte>, vs: seq<u32>) {
    && |bs| >= 2 && 1 <= bs[0] <= 31 && bs[1] == ExceptionCount(vs, bs[0]) >= 1
    && exists k, base | 2 <= k <= |bs| && IsBaseOf(base, vs, bs[0], 0) ::
         ArePacked(bs[2..k], base, bs[0]) && AreListed(bs[k..], vs, bs[0], 0)
  }

  lemma PatchedAccepted(s: seq<byte>, n: nat) returns (k: nat)
    requires ReadPatched(s, n).Ok?
    ensures k <= |s| && ArePatched(s[..k], ReadPatched(s, n).value) && ReadPatched(s, n).rest == s[k..]
  {
    hide UnpackBits, ReadExceptions, ArePacked, AreListed, IsBaseOf, PackedLen, ExceptionCount, ExceptionCost, Pow2;
    var width: nat, exceptions: nat := s[0], s[1];
    assert s[1..][1..] == s[2..];
    var base, rest := UnpackBits(s[2..], n, width).value, UnpackBits(s[2..], n, width).rest;
    UnpackAccepted(s[2..], n, width);
    UnpackedBelow(s[2..], n, width);
    var i := PackedLen(n, width);
    DropTwice(s, 2, i);
    var j := ExceptionsAccepted(rest, exceptions, base, width, 0);
    DropTwice(s, 2 + i, j);
    k := 2 + i + j;
    var vs, bs := ReadPatched(s, n).value, s[..k];
    NoExceptions(base, width);
    ExceptionsShortest(rest, exceptions, base, width, 0);
    assert bs[2..2 + i] == s[2..][..i] && bs[2 + i..] == rest[..j];
    PatchedBy(bs, vs, base, 2 + i);
  }

  lemma PatchedBy(bs: seq<byte>, vs: seq<u32>, base: seq<u32>, k: nat)
    requires 2 <= k <= |bs| && 1 <= bs[0] <= 31 && bs[1] == ExceptionCount(vs, bs[0]) >= 1
    requires IsBaseOf(base, vs, bs[0], 0) && ArePacked(bs[2..k], base, bs[0]) && AreListed(bs[k..], vs, bs[0], 0)
    ensures ArePatched(bs, vs)
  {
    hide ArePacked, AreListed, IsBaseOf, ExceptionCount;
  }

  lemma PatchedSentence(bs: seq<byte>, vs: seq<u32>, rest: seq<byte>)
    requires ArePatched(bs, vs)
    ensures ReadPatched(bs + rest, |vs|) == Ok(vs, rest)
  {
    var width: nat := bs[0];
    var k, base :| 2 <= k <= |bs| && IsBaseOf(base, vs, width, 0) && ArePacked(bs[2..k], base, width)
      && AreListed(bs[k..], vs, width, 0);
    hide ArePacked, AreListed, IsBaseOf, ExceptionCount, ArePatched, ReadPatched;
    FourParts(bs, 2, k, rest);
    assert bs[1..2] == [bs[1]];
    PatchedParts(bs[0], bs[1], bs[2..k], bs[k..], base, vs, rest);
  }

  /** A sequence by its first element and three more parts. */
  lemma FourParts(s: seq<byte>, i: nat, j: nat, rest: seq<byte>)
    requires 1 <= i <= j <= |s|
    ensures s + rest == [s[0]] + (s[1..i] + (s[i..j] + (s[j..] + rest)))
  {
  }

  lemma PatchedParts(width: byte, exceptions: byte, a: seq<byte>, b: seq<byte>, base: seq<u32>, vs: seq<u32>,
                     rest: seq<byte>)
    requires 1 <= width <= 31 && exceptions == ExceptionCount(vs, width) >= 1
    requires IsBaseOf(base, vs, width, 0) && ArePacked(a, base, width) && AreListed(b, vs, width, 0)
    ensures ReadPatched([width] + ([exceptions] + (a + (b + rest))), |vs|) == Ok(vs, rest)
  {
    assert |base| == |vs|;
    hide UnpackBits, ReadExceptions, ArePacked, AreListed, IsBaseOf, ReadByte;
    PackedRead(a, base, width, b + rest);
    assert vs[0..] == vs;
    ListedRead(b, base, vs, width, 0, 0, rest);
    ReadByteOf(width, [exceptions] + (a + (b + rest)));
    ReadByteOf(exceptions, a + (b + rest));
  }

  // Channels

  ghost predicate IsDocChannel(bs: seq<byte>, mode: nat, deltas: seq<u32>) {
    || (mode == 0 && AreNumbers(bs, deltas))
    || (mode == 1 && ArePackedWithWidth(bs, deltas))
    || (mode == 2 && ArePatched(bs, deltas))
  }

  ghost predicate AllAre(freqs: seq<u32>, v: u32) {
    forall i :: 0 <= i < |freqs| ==> freqs[i] == v
  }

  ghost predicate IsFreqChannel(bs: seq<byte>, mode: nat, freqs: seq<u32>) {
    || (mode == 0 && bs == [] && AllAre(freqs, 1))
    || (mode == 1 && freqs != [] && freqs[0] != 1 && AllAre(freqs, freqs[0]) && IsNumber(bs, freqs[0]))
    || (mode == 2 && ArePackedWithWidth(bs, freqs))
    || (mode == 3 && AreNumbers(bs, freqs))
  }

  lemma DocChannelAccepted(s: seq<byte>, mode: nat, n: nat) returns (k: nat)
    requires ReadDocChannel(s, mode, n).Ok?
    ensures var r := ReadDocChannel(s, mode, n);
      k <= |s| && IsDocChannel(s[..k], mode, r.value) && r.rest == s[k..]
  {
    hide ReadVarints, ReadPacked, ReadPatched, AreNumbers, ArePackedWithWidth, ArePatched;
    if mode == 0 {
      k := VarintsAccepted(s, n);
    } else if mode == 1 {
      k := PackedAccepted(s, n);
    } else {
      k := PatchedAccepted(s, n);
    }
  }

  lemma DocChannelSentence(bs: seq<byte>, mode: nat, deltas: seq<u32>, rest: seq<byte>)
    requires IsDocChannel(bs, mode, deltas)
    ensures ReadDocChannel(bs + rest, mode, |deltas|) == Ok(deltas, rest)
  {
    hide ReadVarints, ReadPacked, ReadPatched, AreNumbers, ArePackedWithWidth, ArePatched;
    if mode == 0 {
      NumbersRead(bs, deltas, rest);
    } else if mode == 1 {
      PackedWithWidthRead(bs, deltas, rest);
    } else {
      PatchedSentence(bs, deltas, rest);
    }
  }

  lemma FreqChannelAccepted(s: seq<byte>, mode: nat, n: nat) returns (k: nat)
    requires n > 0 && ReadFreqChannel(s, mode, n).Ok?
    ensures var r := ReadFreqChannel(s, mode, n);
      k <= |s| && IsFreqChannel(s[..k], mode, r.value) && r.rest == s[k..]
  {
    hide ReadVarints, ReadPacked, ReadVarint, AreNumbers, ArePackedWithWidth, IsNumber;
    if mode == 0 {
      k := 0;
    } else if mode == 1 {
      k := VarintAccepted(s);
    } else if mode == 2 {
      k := PackedAccepted(s, n);
    } else {
      k := VarintsAccepted(s, n);
    }
  }

  lemma FreqChannelSentence(bs: seq<byte>, mode: nat, freqs: seq<u32>, rest: seq<byte>)
    requires IsFreqChannel(bs, mode, freqs)
    ensures ReadFreqChannel(bs + rest, mode, |freqs|) == Ok(freqs, rest)
  {
    hide ReadVarints, ReadPacked, ReadVarint, AreNumbers, ArePackedWithWidth, IsNumber;
    if mode == 0 {
      assert bs + rest == rest && Repeated(1, |freqs|) == freqs;
    } else if mode == 1 {
      NumberRead(bs, freqs[0], rest);
      assert Repeated(freqs[0], |freqs|) == freqs;
    } else if mode == 2 {
      PackedWithWidthRead(bs, freqs, rest);
    } else {
      NumbersRead(bs, freqs, rest);
    }
  }

  // Blocks

  /** The parts of a block: its first byte, the first id up to `i`, the gaps up to `j`, the
      frequencies. */
  ghost predicate IsBlockAt(s: seq<byte>, docs: seq<u32>, freqs: seq<u32>, i: nat, j: nat) {
    && docs != [] && |docs| == |freqs| && StrictlyIncreasing(docs)
    && 1 <= i <= j <= |s| && s[0] < 16 && IsNumber(s[1..i], docs[0])
    && IsDocChannel(s[i..j], s[0] % 4, Deltas(docs)) && IsFreqChannel(s[j..], s[0] / 4, freqs)
  }

  ghost predicate IsBlock(s: seq<byte>, docs: seq<u32>, freqs: seq<u32>) {
    exists i, j :: IsBlockAt(s, docs, freqs, i, j)
  }

  lemma ThreeParts(s: seq<byte>, i: nat, j: nat, k: nat)
    requires 1 + i + j + k <= |s|
    ensures var used := s[..1 + i + j + k];
      && used[1..1 + i] == s[1..][..i] && used[1 + i..1 + i + j] == s[1..][i..][..j]
      && used[1 + i + j..] == s[1..][i..][j..][..k] && s[1..][i..][j..][k..] == s[1 + i + j + k..]
  {
    DropTwice(s, 1, i);
    DropTwice(s, 1 + i, j);
    DropTwice(s, 1 + i + j, k);
  }

  lemma BlockAccepted(s: seq<byte>, count: nat) returns (k: nat)
    requires count > 0 && DecodeBlock(s, count).Ok?
    ensures var r := DecodeBlock(s, count);
      k <= |s| && IsBlock(s[..k], r.value.0, r.value.1) && r.rest == s[k..]
  {
    hide ReadVarint, ReadDocChannel, ReadFreqChannel, Accumulate, Deltas, IsNumber, IsDocChannel, IsFreqChannel,
         StrictlyIncreasing;
    var header, rest := s[0], s[1..];
    var first := ReadVarint(rest).value;
    var i := VarintAccepted(rest);
    var deltas := ReadDocChannel(rest[i..], header % 4, count - 1).value;
    var j := DocChannelAccepted(rest[i..], header % 4, count - 1);
    AccumulatedDeltas(first, deltas);
    var freqs := ReadFreqChannel(rest[i..][j..], header / 4, count).value;
    var l := FreqChannelAccepted(rest[i..][j..], header / 4, count);
    k := 1 + i + j + l;
    var docs := [first] + Accumulate(first, deltas).value;
    assert DecodeBlock(s, count) == Ok((docs, freqs), rest[i..][j..][l..]);
    hide DecodeBlock, DecodeChannels, IsBlock;
    Assembled(s, i, j, l, docs, freqs);
  }

  lemma Assembled(s: seq<byte>, i: nat, j: nat, l: nat, docs: seq<u32>, freqs: seq<u32>)
    requires 1 + i + j + l <= |s| && docs != [] && |docs| == |freqs| && StrictlyIncreasing(docs) && s[0] < 16
    requires IsNumber(s[1..][..i], docs[0]) && IsDocChannel(s[1..][i..][..j], s[0] % 4, Deltas(docs))
    requires IsFreqChannel(s[1..][i..][j..][..l], s[0] / 4, freqs)
    ensures IsBlock(s[..1 + i + j + l], docs, freqs) && s[1..][i..][j..][l..] == s[1 + i + j + l..]
  {
    hide Deltas, IsNumber, IsDocChannel, IsFreqChannel, StrictlyIncreasing;
    ThreeParts(s, i, j, l);
    assert IsBlockAt(s[..1 + i + j + l], docs, freqs, 1 + i, 1 + i + j);
  }

  lemma BlockSentence(s: seq<byte>, docs: seq<u32>, freqs: seq<u32>, rest: seq<byte>)
    requires IsBlock(s, docs, freqs)
    ensures DecodeBlock(s + rest, |docs|) == Ok((docs, freqs), rest)
  {
    var i: nat, j: nat :| IsBlockAt(s, docs, freqs, i, j);
    hide DecodeBlock, Deltas, IsNumber, IsDocChannel, IsFreqChannel, StrictlyIncreasing;
    FourParts(s, i, j, rest);
    BlockParts(s[0], s[1..i], s[i..j], s[j..], docs, freqs, rest);
  }

  lemma BlockParts(header: byte, a: seq<byte>, b: seq<byte>, c: seq<byte>, docs: seq<u32>, freqs: seq<u32>,
                   rest: seq<byte>)
    requires docs != [] && |docs| == |freqs| && StrictlyIncreasing(docs) && header < 16 && IsNumber(a, docs[0])
    requires IsDocChannel(b, header % 4, Deltas(docs)) && IsFreqChannel(c, header / 4, freqs)
    ensures DecodeBlock([header] + (a + (b + (c + rest))), |docs|) == Ok((docs, freqs), rest)
  {
    hide ReadVarint, ReadDocChannel, ReadFreqChannel, Accumulate, Deltas, IsNumber, IsDocChannel, IsFreqChannel,
         StrictlyIncreasing, ReadByte;
    ReadByteOf(header, a + (b + (c + rest)));
    NumberRead(a, docs[0], b + (c + rest));
    DocChannelSentence(b, header % 4, Deltas(docs), c + rest);
    AccumulateDeltas(docs);
    FreqChannelSentence(c, header / 4, freqs, rest);
    assert docs == [docs[0]] + docs[1..];
  }

  /** Decoding yields these postings and leaves these bytes exactly if what comes before them is
      a block of these postings. */
  lemma DecodesIff(s: seq<byte>, docs: seq<u32>, freqs: seq<u32>, rest: seq<byte>)
    requires docs != []
    ensures DecodeBlock(s, |docs|) == Ok((docs, freqs), rest)
      <==> exists used :: s == used + rest && IsBlock(used, docs, freqs)
  {
    hide DecodeBlock, IsBlock;
    if DecodeBlock(s, |docs|) == Ok((docs, freqs), rest) {
      var k := BlockAccepted(s, |docs|);
      assert s == s[..k] + rest;
    }
    forall used | s == used + rest && IsBlock(used, docs, freqs)
      ensures DecodeBlock(s, |docs|) == Ok((docs, freqs), rest)
    {
      BlockSentence(used, docs, freqs, rest);
    }
  }

  // Payloads

  /** Blocks of 128 postings one after the other, the last one of the rest. */
  ghost predicate IsPayload(s: seq<byte>, docs: seq<u32>, freqs: seq<u32>)
    requires |docs| == |freqs|
    decreases |docs|
  {
    if docs == [] then s == []
    else
      var b := if |docs| < 128 then |docs| else 128;
      exists k | 0 <= k <= |s| :: IsBlock(s[..k], docs[..b], freqs[..b]) && IsPayload(s[k..], docs[b..], freqs[b..])
  }

  lemma {:induction false} PayloadAccepted(s: seq<byte>, n: nat) returns (k: nat)
    requires DecodePostings(s, n).Ok?
    ensures var r := DecodePostings(s, n);
      k <= |s| && IsPayload(s[..k], r.value.0, r.value.1) && r.rest == s[k..]
    decreases n
  {
    hide DecodeBlock, IsBlock;
    if n == 0 {
      k := 0;
    } else {
      var b := FirstCount(n);
      var block := DecodeBlock(s, b).value;
      var i := BlockAccepted(s, b);
      var tail := DecodePostings(s[i..], n - b).value;
      var j := PayloadAccepted(s[i..], n - b);
      k := i + j;
      PrefixParts(s, i, j);
      PayloadCons(s[..k], i, block, tail);
    }
  }

  lemma PayloadCons(s: seq<byte>, i: nat, block: Postings, tail: Postings)
    requires |block.0| == |block.1| > 0 && |tail.0| == |tail.1| && |block.0| == FirstCount(|block.0| + |tail.0|)
    requires i <= |s| && IsBlock(s[..i], block.0, block.1) && IsPayload(s[i..], tail.0, tail.1)
    ensures IsPayload(s, block.0 + tail.0, block.1 + tail.1)
  {
    hide IsBlock;
    var docs, freqs, b := block.0 + tail.0, block.1 + tail.1, |block.0|;
    assert docs[..b] == block.0 && docs[b..] == tail.0 && freqs[..b] == block.1 && freqs[b..] == tail.1;
  }

  lemma {:induction false} PayloadSentence(s: seq<byte>, docs: seq<u32>, freqs: seq<u32>, rest: seq<byte>)
    requires |docs| == |freqs| && IsPayload(s, docs, freqs)
    ensures DecodePostings(s + rest, |docs|) == Ok((docs, freqs), rest)
    decreases |docs|
  {
    hide DecodeBlock, IsBlock, DecodePostings;
    if docs == [] {
      assert s + rest == rest;
      NothingToDecode(rest);
    } else {
      hide IsPayload;
      var b := FirstCount(|docs|);
      var k := PayloadSplit(s, docs, freqs);
      var tail := s[k..] + rest;
      BlockSentence(s[..k], docs[..b], freqs[..b], tail);
      PayloadSentence(s[k..], docs[b..], freqs[b..], rest);
      assert s + rest == s[..k] + tail;
      OneMoreBlock(s + rest, (docs[..b], freqs[..b]), tail, (docs[b..], freqs[b..]), rest);
      assert docs == docs[..b] + docs[b..] && freqs == freqs[..b] + freqs[b..];
    }
  }

  lemma NothingToDecode(rest: seq<byte>)
    ensures DecodePostings(rest, 0) == Ok(([], []), rest)
  {
  }

  lemma PayloadSplit(s: seq<byte>, docs: seq<u32>, freqs: seq<u32>) returns (k: nat)
    requires |docs| == |freqs| && docs != [] && IsPayload(s, docs, freqs)
    ensures var b := FirstCount(|docs|);
      k <= |s| && IsBlock(s[..k], docs[..b], freqs[..b]) && IsPayload(s[k..], docs[b..], freqs[b..])
  {
    hide IsBlock;
    var b := FirstCount(|docs|);
    k :| 0 <= k <= |s| && IsBlock(s[..k], docs[..b], freqs[..b]) && IsPayload(s[k..], docs[b..], freqs[b..]);
  }

  lemma OneMoreBlock(s: seq<byte>, block: Postings, tail: seq<byte>, more: Postings, rest: seq<byte>)
    requires |block.0| > 0 && |block.0| == FirstCount(|block.0| + |more.0|)
    requires DecodeBlock(s, |block.0|) == Ok(block, tail) && DecodePostings(tail, |more.0|) == Ok(more, rest)
    ensures DecodePostings(s, |block.0| + |more.0|) == Ok((block.0 + more.0, block.1 + more.1), rest)
  {
    hide DecodeBlock;
  }

  /** The same for a whole payload. */
  lemma PayloadDecodesIff(s: seq<byte>, docs: seq<u32>, freqs: seq<u32>, rest: seq<byte>)
    requires |docs| == |freqs|
    ensures DecodePostings(s, |docs|) == Ok((docs, freqs), rest)
      <==> exists used :: s == used + rest && IsPayload(used, docs, freqs)
  {
    hide DecodePostings, IsPayload;
    if DecodePostings(s, |docs|) == Ok((docs, freqs), rest) {
      var k := PayloadAccepted(s, |docs|);
      assert s == s[..k] + rest;
    }
    forall used | s == used + rest && IsPayload(used, docs, freqs)
      ensures DecodePostings(s, |docs|) == Ok((docs, freqs), rest)
    {
      PayloadSentence(used, docs, freqs, rest);
    }
  }

  // Refusals

  /** First bytes and widths that are refused, whatever follows. */
  lemma MalformedHeads(b: byte, s: seq<byte>, count: nat)
    requires count > 0
    ensures b >= 16 ==> DecodeBlock([b] + s, count) == Err(MalformedBlock)
    ensures ReadDocChannel([b] + s, 3, count) == Err(MalformedBlock)
    ensures b == 0 || b > 32 ==> ReadPacked([b] + s, count) == Err(MalformedBlock)
    ensures b == 0 || b > 31 ==> ReadPatched([b] + s, count) == Err(MalformedBlock)
  {
    hide DecodeChannels, UnpackBits, ReadVarint;
    ReadByteOf(b, s);
  }

  /** Exceptions that are refused: none or too many; out of order or out of range; a value that
      fits, or a place that is taken. */
  lemma MalformedExceptions(width: byte, exceptions: byte, index: byte, number: seq<byte>, v: u32, s: seq<byte>, n: nat,
                            base: seq<u32>, from: nat)
    requires 1 <= width <= 31 && n > 0 && IsNumber(number, v)
    ensures exceptions == 0 || exceptions > |base| ==>
      ReadPatched([width] + ([exceptions] + s), |base|) == Err(MalformedBlock)
    ensures index < from || index >= |base| ==>
      ReadExceptions([index] + s, n, base, width, from) == Err(MalformedBlock)
    ensures from <= index < |base| && (v < Pow2(width) || base[index] != 0) ==>
      ReadExceptions([index] + (number + s), n, base, width, from) == Err(MalformedBlock)
  {
    hide UnpackBits, ReadVarint, IsNumber, ReadByte, Pow2;
    ReadByteOf(width, [exceptions] + s);
    ReadByteOf(exceptions, s);
    ReadByteOf(index, s);
    ReadByteOf(index, number + s);
    NumberRead(number, v, s);
  }

  /** A constant frequency of 1 is refused: it has a mode of its own. */
  lemma MalformedConstant(number: seq<byte>, s: seq<byte>, n: nat)
    requires IsNumber(number, 1)
    ensures ReadFreqChannel(number + s, 1, n) == Err(MalformedBlock)
  {
    hide ReadVarint, IsNumber;
    NumberRead(number, 1, s);
  }

  function Total(deltas: seq<u32>): nat {
    if deltas == [] then 0 else deltas[0] + Total(deltas[1..])
  }

  /** Gaps are refused exactly if one of them is 0 or they lead past 32 bits. */
  lemma {:induction false} RefusedGaps(first: u32, deltas: seq<u32>)
    ensures Accumulate(first, deltas) == Failure(NotMonotonic)
      <==> ((exists i :: 0 <= i < |deltas| && deltas[i] == 0) || first + Total(deltas) >= U32_LIMIT)
    decreases deltas
  {
    if deltas != [] {
      var rest := deltas[1..];
      if deltas[0] != 0 && first + deltas[0] < U32_LIMIT {
        RefusedGaps(first + deltas[0], rest);
        if i :| 0 <= i < |rest| && rest[i] == 0 {
          assert deltas[i + 1] == 0;
        }
      }
    }
  }
}
