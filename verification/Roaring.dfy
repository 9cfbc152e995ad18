/** The chunked doc-id set (`RoaringDocSet`): building it from a posting list and
    intersecting two of them container by container. */
module Roaring {
  import opened BitOps
  import opened Bytes

  const CHUNK_SHIFT := 16
  const CHUNK_SIZE := 0x1_0000
  const WORDS_PER_CHUNK := 1024
  const DENSE_THRESHOLD := 4096

  type u16 = w: int | 0 <= w < 0x1_0000
  type u64 = w: int | 0 <= w < 0x1_0000_0000_0000_0000

  datatype Container = Array(lows: seq<u16>) | Bitmap(words: seq<u64>)

  datatype RoaringDocSet = RoaringDocSet(chunks: seq<(u16, Container)>, len: nat)

  // Operators, bit by bit

  lemma {:induction false} AndBits(a: nat, b: nat, i: nat)
    ensures Bit(BitAnd(a, b), i) <==> (Bit(a, i) && Bit(b, i))
  {
    if a == 0 || b == 0 {
      ZeroBit(i);
    } else if i > 0 {
      AndBits(a / 2, b / 2, i - 1);
      assert BitAnd(a, b) / 2 == BitAnd(a / 2, b / 2);
    }
  }

  lemma OrHalf(a: nat, b: nat)
    ensures BitOr(a, b) / 2 == BitOr(a / 2, b / 2)
    ensures BitOr(a, b) % 2 == 1 <==> (a % 2 == 1 || b % 2 == 1)
  {
  }

  lemma {:induction false} OrBits(a: nat, b: nat, i: nat)
    ensures Bit(BitOr(a, b), i) <==> (Bit(a, i) || Bit(b, i))
  {
    hide BitOr;
    OrHalf(a, b);
    if i > 0 {
      OrBits(a / 2, b / 2, i - 1);
    }
  }

  lemma {:induction false} PowerBit(k: nat, i: nat)
    ensures Bit(Pow2(k), i) <==> i == k
  {
    if k == 0 {
      if i > 0 {
        ZeroBit(i - 1);
      }
    } else if i > 0 {
      PowerBit(k - 1, i - 1);
      assert Pow2(k) / 2 == Pow2(k - 1);
    }
  }

  lemma {:induction false} BitBelow(x: nat, i: nat, n: nat)
    requires x < Pow2(n) && Bit(x, i)
    ensures i < n
  {
    if n == 0 {
      ZeroBit(i);
    } else if i > 0 {
      BitBelow(x / 2, i - 1, n - 1);
    }
  }

  lemma {:induction false} ShiftedBit(x: nat, i: nat)
    ensures Shr(x, i) % 2 == 1 <==> Bit(x, i)
  {
    if i > 0 {
      ShiftedBit(x / 2, i - 1);
      DivModProduct(x, 2, Pow2(i - 1));
    }
  }

  lemma {:induction false} OrBound(a: nat, b: nat, n: nat)
    requires a < Pow2(n) && b < Pow2(n)
    ensures BitOr(a, b) < Pow2(n)
  {
    if a != 0 && b != 0 {
      OrBound(a / 2, b / 2, n - 1);
    }
  }

  lemma {:induction false} OrCommutes(a: nat, b: nat)
    ensures BitOr(a, b) == BitOr(b, a)
  {
    if a != 0 && b != 0 {
      OrCommutes(a / 2, b / 2);
    }
  }

  lemma {:induction false} AndAtMost(a: nat, b: nat)
    ensures BitAnd(a, b) <= b
  {
    if a != 0 && b != 0 {
      AndAtMost(a / 2, b / 2);
    }
  }

  /** `trailing_zeros` of a non-zero word: its lowest set bit. */
  function TrailingZeros(x: nat): nat
    requires x > 0
  {
    if x % 2 == 1 then 0 else 1 + TrailingZeros(x / 2)
  }

  lemma {:induction false} LowestBit(x: nat, i: nat)
    requires x > 0
    ensures Bit(x, TrailingZeros(x))
    ensures Bit(x, i) ==> TrailingZeros(x) <= i
  {
    if x % 2 == 0 {
      LowestBit(x / 2, if i > 0 then i - 1 else 0);
    }
  }

  lemma {:induction false} PredecessorBit(x: nat, i: nat)
    requires x > 0
    ensures (Bit(x, i) && Bit(x - 1, i)) <==> (Bit(x, i) && i != TrailingZeros(x))
  {
    if i > 0 {
      if x % 2 == 1 {
        assert (x - 1) / 2 == x / 2;
      } else {
        assert (x - 1) / 2 == x / 2 - 1;
        PredecessorBit(x / 2, i - 1);
      }
    }
  }

  /** `x & (x - 1)` clears the lowest set bit and nothing else. */
  lemma ClearLowest(x: nat)
    requires x > 0
    ensures BitAnd(x, x - 1) < x
    ensures forall i: nat :: Bit(BitAnd(x, x - 1), i) <==> (Bit(x, i) && i != TrailingZeros(x))
  {
    hide BitAnd, Bit, TrailingZeros;
    AndAtMost(x, x - 1);
    forall i: nat ensures Bit(BitAnd(x, x - 1), i) <==> (Bit(x, i) && i != TrailingZeros(x)) {
      AndBits(x, x - 1, i);
      PredecessorBit(x, i);
    }
  }

  // Containers

  ghost predicate ValidContainer(c: Container) {
    match c
    case Array(lows) => StrictlyIncreasing(lows)
    case Bitmap(words) => |words| == WORDS_PER_CHUNK
  }

  /** The low halves a container stands for. */
  ghost predicate In(c: Container, low: u16)
    requires ValidContainer(c)
  {
    match c
    case Array(lows) => low in lows
    case Bitmap(words) => Bit(words[low / 64], low % 64)
  }

  /** Membership as the container computes it; the library's binary search over an ascending
      vector is its membership test. */
  function Contains(c: Container, low: u16): (r: bool)
    requires ValidContainer(c)
    ensures r <==> In(c, low)
  {
    match c
    case Array(lows) => low in lows
    case Bitmap(words) =>
      assert low == low / 64 * 64 + low % 64;
      ShiftedBit(words[low / 64], low % 64);
      AndMask(Shr(words[low / 64], low % 64), 1);
      BitAnd(Shr(words[low / 64], low % 64), 1) == 1
  }

  lemma AppendIncreasing(s: seq<int>, x: int)
    requires StrictlyIncreasing(s) && forall y :: y in s ==> y < x
    ensures StrictlyIncreasing(s + [x])
    ensures forall y :: y in s + [x] <==> (y in s || y == x)
  {
    var t := s + [x];
    forall i, j | 0 <= i < j < |t| ensures t[i] < t[j] {
      assert t[i] == s[i] && s[i] in s;
    }
  }

  /** Bit `low` of the bitmap whose word at bit `base` is `word`. */
  ghost predicate Has(word: nat, base: nat, low: nat) {
    base <= low && Bit(word, low - base)
  }

  lemma TakeLowest(word: nat, base: nat)
    requires word > 0
    ensures var first := base + TrailingZeros(word);
      && Has(word, base, first)
      && (forall low: nat :: Has(word, base, low) ==> first <= low)
      && (forall low: nat :: Has(BitAnd(word, word - 1), base, low) <==> (Has(word, base, low) && low != first))
  {
    hide Bit, BitAnd, TrailingZeros;
    ClearLowest(word);
    LowestBit(word, 0);
    forall low: nat | Has(word, base, low) ensures base + TrailingZeros(word) <= low {
      LowestBit(word, low - base);
    }
  }

  lemma NothingLeft(base: nat)
    ensures forall low: nat :: !Has(0, base, low)
  {
    forall low: nat ensures !Has(0, base, low) {
      if base <= low {
        ZeroBit(low - base);
      }
    }
  }

  /** The loop that empties a word bit by bit. */
  method EmitWord(word: u64, base: nat) returns (lows: seq<nat>)
    ensures StrictlyIncreasing(lows)
    ensures forall low: nat :: low in lows <==> Has(word, base, low)
  {
    hide Has, BitAnd, TrailingZeros;
    lows := [];
    var and: nat := word;
    while and != 0
      invariant StrictlyIncreasing(lows)
      invariant forall low: nat :: (low in lows || Has(and, base, low)) <==> Has(word, base, low)
      invariant forall low, x: nat :: low in lows && Has(and, base, x) ==> low < x
      decreases and
    {
      AndAtMost(and, and - 1);
      TakeLowest(and, base);
      var bit := TrailingZeros(and);
      assert forall low: nat :: low in lows ==> low < base + bit;
      AppendIncreasing(lows, base + bit);
      ghost var before, last := lows, and;
      lows := lows + [base + bit];
      and := BitAnd(and, and - 1);
      forall low, x: nat | low in lows && Has(and, base, x) ensures low < x {
        assert Has(last, base, x) && (low in before || low == base + bit);
      }
    }
    NothingLeft(base);
  }

  lemma JoinIncreasing(s: seq<int>, t: seq<int>, bound: int)
    requires StrictlyIncreasing(s) && StrictlyIncreasing(t)
    requires (forall x :: x in s ==> x < bound) && (forall x :: x in t ==> bound <= x)
    ensures StrictlyIncreasing(s + t)
    ensures forall x :: x in s + t <==> (x in s || x in t)
  {
    var r := s + t;
    forall i, j | 0 <= i < j < |r| ensures r[i] < r[j] {
      if i < |s| <= j {
        assert r[i] in s && r[j] in t;
      }
    }
  }

  /** The bits of the conjunction of two words are the values of that word's range that both
      bitmaps hold. */
  lemma WordRange(wa: seq<u64>, wb: seq<u64>, w: nat, low: nat)
    requires |wa| == |wb| == WORDS_PER_CHUNK && w < WORDS_PER_CHUNK
    ensures Has(BitAnd(wa[w], wb[w]), 64 * w, low)
      <==> (low / 64 == w && In(Bitmap(wa), low) && In(Bitmap(wb), low))
  {
    hide Bit, BitAnd;
    var and := BitAnd(wa[w], wb[w]);
    AndAtMost(wa[w], wb[w]);
    Pow2Values();
    Pow2Add(32, 32);
    if 64 * w <= low && Bit(and, low - 64 * w) {
      BitBelow(and, low - 64 * w, 64);
    }
    if low / 64 == w {
      assert low % 64 == low - 64 * w;
      AndBits(wa[w], wb[w], low % 64);
    }
  }

  method IntersectBitmaps(wa: seq<u64>, wb: seq<u64>) returns (lows: seq<u16>)
    requires |wa| == |wb| == WORDS_PER_CHUNK
    ensures StrictlyIncreasing(lows)
    ensures forall low: u16 :: low in lows <==> (In(Bitmap(wa), low) && In(Bitmap(wb), low))
  {
    hide In, BitAnd, Has;
    lows := [];
    for w := 0 to WORDS_PER_CHUNK
      invariant StrictlyIncreasing(lows)
      invariant forall low: u16 :: low in lows <==> (low / 64 < w && In(Bitmap(wa), low) && In(Bitmap(wb), low))
    {
      AndAtMost(wa[w], wb[w]);
      var emitted := EmitWord(BitAnd(wa[w], wb[w]), 64 * w);
      forall low: nat ensures low in emitted <==> (low / 64 == w && In(Bitmap(wa), low) && In(Bitmap(wb), low)) {
        WordRange(wa, wb, w, low);
      }
      forall i | 0 <= i < |emitted| ensures emitted[i] < CHUNK_SIZE {
        assert emitted[i] in emitted;
      }
      JoinIncreasing(lows, emitted, 64 * w);
      lows := lows + emitted;
    }
  }

  /** Drive the array, probe the other container. */
  method Probe(arr: seq<u16>, c: Container) returns (lows: seq<u16>)
    requires StrictlyIncreasing(arr) && ValidContainer(c)
    ensures StrictlyIncreasing(lows)
    ensures forall low: u16 :: low in lows <==> (low in arr && In(c, low))
  {
    hide In;
    lows := [];
    for p := 0 to |arr|
      invariant StrictlyIncreasing(lows)
      invariant forall low: u16 :: low in lows <==> (low in arr[..p] && In(c, low))
    {
      if Contains(c, arr[p]) {
        AppendIncreasing(lows, arr[p]);
        lows := lows + [arr[p]];
      }
    }
  }

  /** Sorted two-pointer merge. */
  method Merge(xa: seq<u16>, xb: seq<u16>) returns (lows: seq<u16>)
    requires StrictlyIncreasing(xa) && StrictlyIncreasing(xb)
    ensures StrictlyIncreasing(lows)
    ensures forall low: u16 :: low in lows <==> (low in xa && low in xb)
  {
    lows := [];
    var p, q := 0, 0;
    while p < |xa| && q < |xb|
      invariant p <= |xa| && q <= |xb|
      invariant StrictlyIncreasing(lows)
      invariant forall x :: x in lows ==> x in xa && x in xb && (p < |xa| ==> x < xa[p]) && (q < |xb| ==> x < xb[q])
      invariant forall x :: x in xa && x in xb && x !in lows ==> x in xa[p..] && x in xb[q..]
    {
      if xa[p] < xb[q] {
        p := p + 1;
      } else if xa[p] > xb[q] {
        q := q + 1;
      } else {
        AppendIncreasing(lows, xa[p]);
        lows := lows + [xa[p]];
        p, q := p + 1, q + 1;
      }
    }
  }

  method IntersectContainers(a: Container, b: Container) returns (lows: seq<u16>)
    requires ValidContainer(a) && ValidContainer(b)
    ensures StrictlyIncreasing(lows)
    ensures forall low: u16 :: low in lows <==> (In(a, low) && In(b, low))
  {
    match (a, b)
    case (Bitmap(wa), Bitmap(wb)) => lows := IntersectBitmaps(wa, wb);
    case (Array(arr), Bitmap(_)) => lows := Probe(arr, b);
    case (Bitmap(_), Array(arr)) => lows := Probe(arr, a);
    case (Array(xa), Array(xb)) => lows := Merge(xa, xb);
  }

  // Whole sets

  ghost predicate Valid(chunks: seq<(u16, Container)>) {
    && (forall k :: 0 <= k < |chunks| ==> ValidContainer(chunks[k].1))
    && (forall k, l :: 0 <= k < l < |chunks| ==> chunks[k].0 < chunks[l].0)
  }

  /** The chunk holds the doc id. */
  ghost predicate Covers(chunk: (u16, Container), d: u32)
    requires ValidContainer(chunk.1)
  {
    chunk.0 == d / CHUNK_SIZE && In(chunk.1, d % CHUNK_SIZE)
  }

  ghost predicate HoldsFrom(chunks: seq<(u16, Container)>, from: nat, d: u32)
    requires Valid(chunks)
  {
    exists k :: from <= k < |chunks| && Covers(chunks[k], d)
  }

  ghost predicate Holds(chunks: seq<(u16, Container)>, d: u32)
    requires Valid(chunks)
  {
    HoldsFrom(chunks, 0, d)
  }

  /** Past a chunk, the ids left are those of later keys. */
  lemma PassChunk(chunks: seq<(u16, Container)>, i: nat, d: u32)
    requires Valid(chunks) && i < |chunks|
    ensures HoldsFrom(chunks, i, d) <==> (Covers(chunks[i], d) || HoldsFrom(chunks, i + 1, d))
    ensures HoldsFrom(chunks, i, d) ==> d / CHUNK_SIZE >= chunks[i].0
    ensures HoldsFrom(chunks, i + 1, d) ==> d / CHUNK_SIZE > chunks[i].0
  {
    hide In;
  }

  lemma NoChunkLeft(chunks: seq<(u16, Container)>)
    requires Valid(chunks)
    ensures forall d: u32 :: !HoldsFrom(chunks, |chunks|, d)
  {
  }

  lemma Rebase(key: u16, low: u16)
    ensures BitOr(Shl(key, CHUNK_SHIFT), low) == key * CHUNK_SIZE + low
  {
    Pow2Values();
    OrShl(low, key, CHUNK_SHIFT);
    OrCommutes(low, Shl(key, CHUNK_SHIFT));
  }

  /** Emitting one chunk's matches as doc ids. */
  method EmitChunk(key: u16, lows: seq<u16>) returns (ids: seq<u32>)
    requires StrictlyIncreasing(lows)
    ensures StrictlyIncreasing(ids)
    ensures forall d: u32 :: d in ids <==> (d / CHUNK_SIZE == key && d % CHUNK_SIZE in lows)
  {
    hide BitOr, Shl;
    ids := [];
    for p := 0 to |lows|
      invariant StrictlyIncreasing(ids)
      invariant forall d: u32 :: d in ids <==> (d / CHUNK_SIZE == key && d % CHUNK_SIZE in lows[..p])
    {
      Rebase(key, lows[p]);
      AppendIncreasing(ids, key * CHUNK_SIZE + lows[p]);
      ids := ids + [BitOr(Shl(key, CHUNK_SHIFT), lows[p])];
    }
  }

  method IntersectForEach(self: RoaringDocSet, other: RoaringDocSet) returns (ids: seq<u32>)
    requires Valid(self.chunks) && Valid(other.chunks)
    ensures StrictlyIncreasing(ids)
    ensures forall d: u32 :: d in ids <==> (Holds(self.chunks, d) && Holds(other.chunks, d))
  {
    hide In, HoldsFrom;
    var a, b := self.chunks, other.chunks;
    ids := [];
    var i, j := 0, 0;
    while i < |a| && j < |b|
      invariant i <= |a| && j <= |b|
      invariant StrictlyIncreasing(ids)
      invariant forall d: u32 ::
        (Holds(a, d) && Holds(b, d)) <==> (d in ids || (HoldsFrom(a, i, d) && HoldsFrom(b, j, d)))
      invariant forall d: u32 :: d in ids ==>
        (i < |a| ==> d / CHUNK_SIZE < a[i].0) && (j < |b| ==> d / CHUNK_SIZE < b[j].0)
    {
      forall d: u32
        ensures HoldsFrom(a, i, d) <==> (Covers(a[i], d) || HoldsFrom(a, i + 1, d))
        ensures HoldsFrom(a, i, d) ==> d / CHUNK_SIZE >= a[i].0
        ensures HoldsFrom(a, i + 1, d) ==> d / CHUNK_SIZE > a[i].0
        ensures HoldsFrom(b, j, d) <==> (Covers(b[j], d) || HoldsFrom(b, j + 1, d))
        ensures HoldsFrom(b, j, d) ==> d / CHUNK_SIZE >= b[j].0
        ensures HoldsFrom(b, j + 1, d) ==> d / CHUNK_SIZE > b[j].0
      {
        PassChunk(a, i, d);
        PassChunk(b, j, d);
      }
      if a[i].0 < b[j].0 {
        i := i + 1;
      } else if a[i].0 > b[j].0 {
        j := j + 1;
      } else {
        var lows := IntersectContainers(a[i].1, b[j].1);
        var emitted := EmitChunk(a[i].0, lows);
        JoinIncreasing(ids, emitted, a[i].0 * CHUNK_SIZE);
        ids := ids + emitted;
        i, j := i + 1, j + 1;
      }
    }
    NoChunkLeft(a);
    NoChunkLeft(b);
    forall d: u32 ensures d in ids <==> (Holds(self.chunks, d) && Holds(other.chunks, d)) {
      if i == |a| {
        assert !HoldsFrom(a, i, d);
      } else {
        assert j == |b| && !HoldsFrom(b, j, d);
      }
    }
  }

  // Building a set

  lemma BitPosition(low: u16)
    ensures Shr(low, 6) == low / 64 && BitAnd(low, 63) == low % 64
  {
    assert Pow2(6) == 64;
    AndMask(low, 6);
  }

  /** Setting one bit of one word. */
  lemma SetBit(word: u64, bit: nat)
    requires bit < 64
    ensures BitOr(word, Shl(1, bit)) < 0x1_0000_0000_0000_0000
    ensures forall i: nat :: Bit(BitOr(word, Shl(1, bit)), i) <==> (Bit(word, i) || i == bit)
  {
    hide Bit, BitOr, Pow2;
    Pow2Values();
    Pow2Add(32, 32);
    PowerBelow(bit, 64);
    OrBound(word, Pow2(bit), 64);
    forall i: nat ensures Bit(BitOr(word, Shl(1, bit)), i) <==> (Bit(word, i) || i == bit) {
      OrBits(word, Pow2(bit), i);
      PowerBit(bit, i);
    }
  }

  lemma PowerBelow(a: nat, b: nat)
    requires a < b
    ensures Pow2(a) < Pow2(b)
  {
    Pow2Monotonic(a + 1, b);
  }

  predicate SharesKey(run: seq<u32>, key: u16) {
    forall p :: 0 <= p < |run| ==> run[p] / CHUNK_SIZE == key
  }

  method BitmapOf(run: seq<u32>, key: u16) returns (words: seq<u64>)
    requires SharesKey(run, key)
    ensures |words| == WORDS_PER_CHUNK
    ensures forall low: u16 :: In(Bitmap(words), low) <==> key * CHUNK_SIZE + low in run
  {
    hide Bit, BitOr, BitAnd, Shl, Shr;
    var buffer := new u64[WORDS_PER_CHUNK](_ => 0);
    forall i: nat ensures !Bit(0, i) {
      ZeroBit(i);
    }
    for p := 0 to |run|
      invariant forall low: u16 :: Bit(buffer[low / 64], low % 64) <==> key * CHUNK_SIZE + low in run[..p]
    {
      var low := run[p] % CHUNK_SIZE;
      BitPosition(low);
      var index, bit := Shr(low, 6), BitAnd(low, 63);
      SetBit(buffer[index], bit);
      assert run[..p + 1] == run[..p] + [run[p]];
      buffer[index] := BitOr(buffer[index], Shl(1, bit));
    }
    assert run[..|run|] == run;
    words := buffer[..];
  }

  method LowsOf(run: seq<u32>, key: u16) returns (lows: seq<u16>)
    requires SharesKey(run, key) && StrictlyIncreasing(run)
    ensures StrictlyIncreasing(lows)
    ensures forall low: u16 :: low in lows <==> key * CHUNK_SIZE + low in run
  {
    lows := [];
    for p := 0 to |run|
      invariant StrictlyIncreasing(lows)
      invariant forall low: u16 :: low in lows <==> key * CHUNK_SIZE + low in run[..p]
    {
      var low := run[p] % CHUNK_SIZE;
      assert run[..p + 1] == run[..p] + [run[p]];
      AppendIncreasing(lows, low);
      lows := lows + [low];
    }
    assert run[..|run|] == run;
  }

  lemma SliceIncreasing(s: seq<int>, lo: nat, hi: nat)
    requires StrictlyIncreasing(s) && lo <= hi <= |s|
    ensures StrictlyIncreasing(s[lo..hi])
  {
  }

  method ContainerOf(run: seq<u32>, key: u16) returns (c: Container)
    requires SharesKey(run, key) && StrictlyIncreasing(run)
    ensures ValidContainer(c) && (c.Bitmap? <==> |run| > DENSE_THRESHOLD)
    ensures forall low: u16 :: In(c, low) <==> key * CHUNK_SIZE + low in run
  {
    if |run| > DENSE_THRESHOLD {
      var words := BitmapOf(run, key);
      c := Bitmap(words);
    } else {
      var lows := LowsOf(run, key);
      c := Array(lows);
    }
  }

  /** How many of the ids fall into a chunk. */
  function KeyCount(ids: seq<u32>, key: u16): nat {
    if ids == [] then 0 else (if ids[0] / CHUNK_SIZE == key then 1 else 0) + KeyCount(ids[1..], key)
  }

  lemma {:induction false} KeyCountConcat(s: seq<u32>, t: seq<u32>, key: u16)
    ensures KeyCount(s + t, key) == KeyCount(s, key) + KeyCount(t, key)
  {
    if s == [] {
      assert s + t == t;
    } else {
      assert (s + t)[1..] == s[1..] + t;
      KeyCountConcat(s[1..], t, key);
    }
  }

  lemma {:induction false} KeyCountAll(s: seq<u32>, key: u16)
    requires SharesKey(s, key)
    ensures KeyCount(s, key) == |s|
  {
    if s != [] {
      KeyCountAll(s[1..], key);
    }
  }

  lemma {:induction false} KeyCountNone(s: seq<u32>, key: u16)
    requires forall p :: 0 <= p < |s| ==> s[p] / CHUNK_SIZE != key
    ensures KeyCount(s, key) == 0
  {
    if s != [] {
      KeyCountNone(s[1..], key);
    }
  }

  /** The run of a key accounts for all of its ids. */
  lemma RunCount(ids: seq<u32>, start: nat, end: nat, key: u16)
    requires StrictlyIncreasing(ids) && start <= end <= |ids| && SharesKey(ids[start..end], key)
    requires forall p :: 0 <= p < start ==> ids[p] / CHUNK_SIZE < key
    requires forall p :: end <= p < |ids| ==> ids[p] / CHUNK_SIZE > key
    ensures KeyCount(ids, key) == end - start
  {
    hide KeyCount;
    KeyCountNone(ids[..start], key);
    KeyCountAll(ids[start..end], key);
    KeyCountNone(ids[end..], key);
    KeyCountConcat(ids[..start], ids[start..end], key);
    KeyCountConcat(ids[..start] + ids[start..end], ids[end..], key);
    assert ids == ids[..start] + ids[start..end] + ids[end..];
  }

  ghost predicate Represents(s: RoaringDocSet, ids: seq<u32>) {
    && Valid(s.chunks) && s.len == |ids|
    && (forall d: u32 :: Holds(s.chunks, d) <==> d in ids)
    && (forall k :: 0 <= k < |s.chunks| ==> (s.chunks[k].1.Bitmap? <==> KeyCount(ids, s.chunks[k].0) > 4096))
  }

  /** Adding the chunk of the next run. */
  lemma PushChunk(chunks: seq<(u16, Container)>, key: u16, c: Container, before: seq<u32>, run: seq<u32>)
    requires Valid(chunks) && ValidContainer(c) && SharesKey(run, key)
    requires forall k :: 0 <= k < |chunks| ==> chunks[k].0 < key
    requires forall d: u32 :: Holds(chunks, d) <==> d in before
    requires forall low: u16 :: In(c, low) <==> key * CHUNK_SIZE + low in run
    ensures Valid(chunks + [(key, c)])
    ensures forall d: u32 :: Holds(chunks + [(key, c)], d) <==> d in before + run
  {
    hide In, ValidContainer;
    var more := chunks + [(key, c)];
    forall d: u32 ensures Holds(more, d) <==> d in before + run {
      if Holds(chunks, d) {
        var k :| 0 <= k < |chunks| && Covers(chunks[k], d);
        assert Covers(more[k], d);
      }
      if Covers((key, c), d) {
        assert Covers(more[|chunks|], d);
      }
      if Holds(more, d) {
        var k :| 0 <= k < |more| && Covers(more[k], d);
        if k < |chunks| {
          assert Covers(chunks[k], d);
        }
      }
      assert d == d / CHUNK_SIZE * CHUNK_SIZE + d % CHUNK_SIZE;
    }
  }

  /** Gathering the run of ids that share the high half of the id at `start`. */
  method EndOfRun(ids: seq<u32>, start: nat) returns (end: nat)
    requires StrictlyIncreasing(ids) && start < |ids|
    ensures start < end <= |ids| && SharesKey(ids[start..end], ids[start] / CHUNK_SIZE)
    ensures forall p :: end <= p < |ids| ==> ids[p] / CHUNK_SIZE > ids[start] / CHUNK_SIZE
    ensures forall p :: start <= p < end ==> ids[p] / CHUNK_SIZE == ids[start] / CHUNK_SIZE
  {
    end := start;
    while end < |ids| && ids[end] / CHUNK_SIZE == ids[start] / CHUNK_SIZE
      invariant start <= end <= |ids| && SharesKey(ids[start..end], ids[start] / CHUNK_SIZE)
      invariant forall p :: start <= p < end ==> ids[p] / CHUNK_SIZE == ids[start] / CHUNK_SIZE
    {
      assert ids[start..end + 1] == ids[start..end] + [ids[end]];
      end := end + 1;
    }
  }

  method FromSorted(ids: seq<u32>) returns (r: RoaringDocSet)
    requires StrictlyIncreasing(ids)
    ensures Represents(r, ids)
  {
    hide In, KeyCount, Holds, StrictlyIncreasing, ValidContainer, SharesKey;
    var chunks: seq<(u16, Container)> := [];
    var i: nat := 0;
    assert forall d: u32 :: !Holds([], d) by {
      NoChunksHoldNothing();
    }
    while i < |ids|
      invariant i <= |ids| && Valid(chunks)
      invariant forall d: u32 :: Holds(chunks, d) <==> d in ids[..i]
      invariant forall k, p :: 0 <= k < |chunks| && i <= p < |ids| ==> chunks[k].0 < ids[p] / CHUNK_SIZE
      invariant forall p, q :: 0 <= p < i <= q < |ids| ==> ids[p] / CHUNK_SIZE < ids[q] / CHUNK_SIZE
      invariant forall k :: 0 <= k < |chunks| ==>
        (chunks[k].1.Bitmap? <==> KeyCount(ids, chunks[k].0) > DENSE_THRESHOLD)
    {
      var key: u16 := ids[i] / CHUNK_SIZE;
      var start := i;
      i := EndOfRun(ids, start);
      var run := ids[start..i];
      SliceIncreasing(ids, start, i);
      var c := ContainerOf(run, key);
      RunCount(ids, start, i, key);
      PushChunk(chunks, key, c, ids[..start], run);
      assert ids[..start] + run == ids[..i];
      chunks := chunks + [(key, c)];
    }
    assert ids[..|ids|] == ids;
    r := RoaringDocSet(chunks, |ids|);
  }

  lemma NoChunksHoldNothing()
    ensures forall d: u32 :: !Holds([], d)
  {
  }

  // The parity the set is built for

  /** The naive intersection of two ascending lists. */
  function Intersection(a: seq<u32>, b: seq<u32>): seq<u32> {
    if a == [] then []
    else if a[0] in b then [a[0]] + Intersection(a[1..], b)
    else Intersection(a[1..], b)
  }

  lemma {:induction false} IntersectionMembers(a: seq<u32>, b: seq<u32>)
    requires StrictlyIncreasing(a)
    ensures forall d :: d in Intersection(a, b) <==> (d in a && d in b)
    ensures StrictlyIncreasing(Intersection(a, b))
  {
    if a != [] {
      IntersectionMembers(a[1..], b);
      assert a == [a[0]] + a[1..];
      var rest := Intersection(a[1..], b);
      forall i | 0 <= i < |rest| ensures a[0] < rest[i] {
        assert rest[i] in a[1..];
      }
    }
  }

  lemma TailMembers(a: seq<int>)
    requires StrictlyIncreasing(a) && a != []
    ensures forall x :: x in a[1..] <==> (x in a && x != a[0])
    ensures forall x :: x in a ==> a[0] <= x
  {
    forall x ensures x in a[1..] <==> (x in a && x != a[0]) {
      assert a == [a[0]] + a[1..];
    }
  }

  lemma HasMember(s: seq<int>)
    ensures s == [] || s[0] in s
  {
  }

  /** Ascending lists with the same members are the same list. */
  lemma {:induction false} SameList(a: seq<int>, b: seq<int>)
    requires StrictlyIncreasing(a) && StrictlyIncreasing(b)
    requires forall x :: x in a <==> x in b
    ensures a == b
  {
    if a == [] {
      HasMember(b);
    } else {
      assert a[0] in b && b[0] in a;
      assert a[0] == b[0];
      TailMembers(a);
      TailMembers(b);
      SameList(a[1..], b[1..]);
      assert a == [a[0]] + a[1..] && b == [b[0]] + b[1..];
    }
  }

  /** Building both sets and intersecting them emits exactly the naive intersection. */
  method Conjunction(a: seq<u32>, b: seq<u32>) returns (ids: seq<u32>)
    requires StrictlyIncreasing(a) && StrictlyIncreasing(b)
    ensures ids == Intersection(a, b)
  {
    var sa := FromSorted(a);
    var sb := FromSorted(b);
    ids := IntersectForEach(sa, sb);
    IntersectionMembers(a, b);
    SameList(ids, Intersection(a, b));
  }
}
