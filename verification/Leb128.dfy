/** Unsigned LEB128 limited to 32 bits (section 7.6 of DWARF 5). */
module Leb128 {
  import opened BitOps
  import opened Bytes

  function Varint(v: nat): (r: seq<byte>)
    ensures |r| >= 1
  {
    if v < 128 then [v] else [v % 128 + 128] + Varint(v / 128)
  }

  function ReadVarint(s: seq<byte>): (r: Parse<u32>)
    ensures r.Ok? ==> |r.rest| < |s|
  {
    match ReadGroups(s, 0)
    case Ok(v, rest) => Ok(v, rest)
    case Err(e) => Err(e)
  }

  /** Values that fit above bit `7 * k` of a 32-bit word. */
  function GroupLimit(k: nat): nat
    requires k <= 4
  {
    if k == 0 then 0x1_0000_0000 else if k == 1 then 0x200_0000 else if k == 2 then 0x4_0000
    else if k == 3 then 0x800 else 0x10
  }

  /** Reads the groups from the `k`-th on; the value is what they contribute above bit `7 * k`. */
  function ReadGroups(s: seq<byte>, k: nat): (r: Parse<nat>)
    requires k <= 4
    ensures r.Ok? ==> r.value < GroupLimit(k) && |r.rest| < |s|
    decreases 4 - k
  {
    if s == [] then Err(UnexpectedEof)
    else
      var chunk := s[0] % 128;
      if k == 4 && (s[0] >= 128 || chunk > 15) then Err(VarintOverflow)
      else if s[0] < 128 then Ok(chunk, s[1..])
      else
        match ReadGroups(s[1..], k + 1)
        case Ok(high, rest) => Ok(chunk + 128 * high, rest)
        case Err(e) => Err(e)
  }

  lemma ReadGroupsCons(b: byte, rest: seq<byte>, k: nat)
    requires k <= 4
    ensures b < 128 && (k < 4 || b <= 15) ==> ReadGroups([b] + rest, k) == Ok(b, rest)
    ensures b >= 128 && k < 4 && ReadGroups(rest, k + 1).Ok? ==>
      ReadGroups([b] + rest, k) == Ok(b % 128 + 128 * ReadGroups(rest, k + 1).value, ReadGroups(rest, k + 1).rest)
  {
    assert ([b] + rest)[1..] == rest;
  }

  lemma {:induction false} ReadGroupsOfVarint(v: nat, t: seq<byte>, k: nat)
    requires k <= 4 && v < GroupLimit(k)
    ensures ReadGroups(Varint(v) + t, k) == Ok(v, t)
    decreases v
  {
    hide ReadGroups;
    if v < 128 {
      ReadGroupsCons(v, t, k);
    } else {
      var high := v / 128;
      assert k < 4 && high < GroupLimit(k + 1);
      ReadGroupsOfVarint(high, t, k + 1);
      ReadGroupsCons(v % 128 + 128, Varint(high) + t, k);
      assert Varint(v) + t == [v % 128 + 128] + (Varint(high) + t);
    }
  }

  /** Reading a written varint returns the value and leaves whatever follows. */
  lemma VarintRoundTrip(v: u32, t: seq<byte>)
    ensures ReadVarint(Varint(v) + t) == Ok(v, t)
  {
    ReadGroupsOfVarint(v, t, 0);
  }

  lemma {:induction false} ReadGroupsAppend(s: seq<byte>, t: seq<byte>, k: nat)
    requires k <= 4
    ensures Extends(ReadGroups(s, k), ReadGroups(s + t, k), t)
    decreases 4 - k
  {
    if s != [] {
      assert (s + t)[1..] == s[1..] + t;
      if k < 4 && s[0] >= 128 {
        ReadGroupsAppend(s[1..], t, k + 1);
      }
    }
  }

  lemma ReadVarintAppend(s: seq<byte>, t: seq<byte>)
    ensures Extends(ReadVarint(s), ReadVarint(s + t), t)
  {
    ReadGroupsAppend(s, t, 0);
  }

  /** Size in bytes of the varint of a value with `bits` significant bits. */
  function VarintLenForBits(bits: nat): (n: nat)
    ensures 1 <= n <= 5
  {
    if bits <= 7 then 1 else if bits <= 14 then 2 else if bits <= 21 then 3 else if bits <= 28 then 4 else 5
  }

  lemma VarintLength(v: u32)
    ensures |Varint(v)| == VarintLenForBits(BitWidth(v))
  {
    Pow2Values();
    BitWidthBound(v, 7);
    BitWidthBound(v, 14);
    BitWidthBound(v, 21);
    BitWidthBound(v, 28);
    hide BitWidth, Pow2, Varint;
    var v1, v2, v3 := v / 128, v / 128 / 128, v / 128 / 128 / 128;
    VarintStep(v);
    VarintStep(v1);
    VarintStep(v2);
    VarintStep(v3);
    VarintStep(v3 / 128);
  }

  lemma VarintStep(v: nat)
    ensures |Varint(v)| == if v < 128 then 1 else 1 + |Varint(v / 128)|
  {
  }

  lemma WriteStep(v: nat)
    requires v >= 128
    ensures BitOr(BitAnd(v, 0x7f), 0x80) == v % 128 + 128
    ensures v / Pow2(7) == v / 128
    ensures Varint(v) == [v % 128 + 128] + Varint(v / 128)
  {
    hide BitAnd, BitOr;
    assert Pow2(7) == 128;
    AndMask(v, 7);
    OrDisjoint(v % 128, 1, 7);
  }

  method WriteVarint(out: seq<byte>, value: u32) returns (out': seq<byte>)
    ensures out' == out + Varint(value)
  {
    hide BitAnd, BitOr, Pow2;
    out' := out;
    var v: nat := value;
    while v >= 0x80
      invariant out' + Varint(v) == out + Varint(value)
    {
      WriteStep(v);
      out' := out' + [BitOr(BitAnd(v, 0x7f), 0x80)];
      v := v / Pow2(7);
    }
    out' := out' + [v];
  }

  /** Weight of the `k`-th group. */
  function GroupWeight(k: nat): nat
    requires k <= 4
  {
    if k == 0 then 1 else if k == 1 then 0x80 else if k == 2 then 0x4000 else if k == 3 then 0x20_0000 else 0x1000_0000
  }

  /** What the groups still to read and the `result` accumulated below group `k` amount to. */
  ghost function Resume(result: nat, k: nat, groups: Parse<nat>): Parse<nat>
    requires k <= 4
  {
    match groups
    case Ok(high, rest) => Ok(result + GroupWeight(k) * high, rest)
    case Err(e) => Err(e)
  }

  lemma MergeGroup(result: nat, chunk: nat, k: nat)
    requires k <= 4 && result < GroupWeight(k)
    ensures BitOr(result, chunk * Pow2(7 * k)) == result + chunk * GroupWeight(k)
  {
    hide BitOr;
    Pow2Values();
    OrDisjoint(result, chunk, 7 * k);
  }

  lemma SplitByte(b: byte)
    ensures BitAnd(b, 0x7f) == b % 128
    ensures BitAnd(b, 0x80) == 0 <==> b < 128
  {
    hide BitAnd;
    assert Pow2(7) == 128;
    AndMask(b, 7);
    AndBit(b, 7);
  }

  method ReadVarintAt(bytes: seq<byte>, position: nat) returns (r: Result<u32>, position': nat)
    requires position <= |bytes|
    ensures Agrees(bytes, r, position', ReadVarint(bytes[position..]))
  {
    hide BitAnd, BitOr, Pow2, ReadGroups;
    var result: nat, shift: nat := 0, 0;
    position' := position;
    ghost var k := 0;
    ghost var spec := ReadGroups(bytes[position..], 0);
    while true
      invariant k <= 4 && shift == 7 * k && result < GroupWeight(k)
      invariant position' <= |bytes|
      invariant spec == Resume(result, k, ReadGroups(bytes[position'..], k))
      decreases 4 - k
    {
      ReadGroupsStep(bytes, position', k);
      if position' >= |bytes| {
        return Failure(UnexpectedEof), position';
      }
      var b := bytes[position'];
      position' := position' + 1;
      SplitByte(b);
      var chunk := BitAnd(b, 0x7f);
      if shift == 28 && BitAnd(b, 0x80) != 0 {
        return Failure(VarintOverflow), position';
      }
      if shift == 28 && chunk > 0x0f {
        return Failure(VarintOverflow), position';
      }
      if shift >= 32 {
        return Failure(VarintOverflow), position';
      }
      MergeGroup(result, chunk, k);
      result := BitOr(result, chunk * Pow2(shift));
      if BitAnd(b, 0x80) == 0 {
        return Success(result), position';
      }
      shift := shift + 7;
      k := k + 1;
    }
  }

  /** One byte of the loop, on the specification's side. */
  lemma ReadGroupsStep(bytes: seq<byte>, position: nat, k: nat)
    requires position <= |bytes| && k <= 4
    ensures var groups := ReadGroups(bytes[position..], k);
      if position == |bytes| then groups == Err(UnexpectedEof)
      else if k == 4 && (bytes[position] >= 128 || bytes[position] % 128 > 15) then groups == Err(VarintOverflow)
      else if bytes[position] < 128 then groups == Ok(bytes[position] % 128, bytes[position + 1..])
      else match ReadGroups(bytes[position + 1..], k + 1)
        case Ok(high, rest) => groups == Ok(bytes[position] % 128 + 128 * high, rest)
        case Err(e) => groups == Err(e)
  {
    if position < |bytes| {
      assert bytes[position..][1..] == bytes[position + 1..];
    }
  }

  // What a varint is, said without reading or writing

  /** The groups of seven bits, lowest first, as a number. */
  function GroupSum(bs: seq<byte>): nat {
    if bs == [] then 0 else bs[0] % 128 + 128 * GroupSum(bs[1..])
  }

  /** Every byte but the last has its top bit set. */
  predicate IsVarint(bs: seq<byte>) {
    bs != [] && bs[|bs| - 1] < 128 && forall i :: 0 <= i < |bs| - 1 ==> bs[i] >= 128
  }

  /** A written varint is its value in groups of seven bits, lowest first, without a spare group. */
  lemma {:induction false} VarintMeans(v: nat)
    ensures IsVarint(Varint(v)) && GroupSum(Varint(v)) == v
    ensures v != 0 ==> Varint(v)[|Varint(v)| - 1] != 0
  {
    hide Varint, GroupSum, IsVarint;
    VarintUnfolds(v);
    if v < 128 {
      LastGroupMeans(v);
    } else {
      var rest := Varint(v / 128);
      VarintMeans(v / 128);
      GroupSumCons(v % 128 + 128, rest);
      IsVarintCons(v % 128 + 128, rest);
    }
  }

  lemma VarintUnfolds(v: nat)
    ensures v < 128 ==> Varint(v) == [v]
    ensures v >= 128 ==> Varint(v) == [v % 128 + 128] + Varint(v / 128)
  {
  }

  lemma LastGroupMeans(v: nat)
    requires v < 128
    ensures IsVarint([v]) && GroupSum([v]) == v
  {
    assert [v][1..] == [];
  }

  lemma IsVarintCons(b: byte, rest: seq<byte>)
    requires b >= 128 && IsVarint(rest)
    ensures IsVarint([b] + rest) && rest != [] && ([b] + rest)[|rest|] == rest[|rest| - 1]
  {
    var s := [b] + rest;
    assert s[|s| - 1] == rest[|rest| - 1];
    forall i | 0 <= i < |s| - 1 ensures s[i] >= 128 {
      assert i > 0 ==> s[i] == rest[i - 1];
    }
  }

  /** Where the first byte without its top bit stands; the length if there is none. */
  function LastGroup(s: seq<byte>): (n: nat)
    ensures n <= |s|
    ensures n < |s| ==> s[n] < 128
    ensures forall i :: 0 <= i < n ==> s[i] >= 128
  {
    if s == [] || s[0] < 128 then 0 else 1 + LastGroup(s[1..])
  }

  /** What the groups from the `k`-th on amount to. */
  function GroupsOf(s: seq<byte>, k: nat): Parse<nat>
    requires k <= 4
  {
    var n := LastGroup(s);
    if n == |s| && |s| <= 4 - k then Err(UnexpectedEof)
    else if n < |s| && n <= 4 - k && (n == 4 - k ==> s[n] <= 15) then Ok(GroupSum(s[..n + 1]), s[n + 1..])
    else Err(VarintOverflow)
  }

  lemma LastGroupCons(b: byte, rest: seq<byte>)
    requires b >= 128
    ensures LastGroup([b] + rest) == 1 + LastGroup(rest)
  {
    assert ([b] + rest)[1..] == rest;
  }

  lemma GroupSumCons(b: byte, rest: seq<byte>)
    ensures GroupSum([b] + rest) == b % 128 + 128 * GroupSum(rest)
  {
    assert ([b] + rest)[1..] == rest;
  }

  lemma GroupsOfCons(b: byte, rest: seq<byte>, k: nat)
    requires b >= 128 && k < 4
    ensures GroupsOf([b] + rest, k) ==
      match GroupsOf(rest, k + 1)
      case Err(e) => Err(e)
      case Ok(high, more) => Ok(b % 128 + 128 * high, more)
  {
    hide GroupSum, LastGroup;
    var s, n := [b] + rest, LastGroup(rest);
    LastGroupCons(b, rest);
    if n < |rest| {
      assert s[..n + 2] == [b] + rest[..n + 1] && s[n + 2..] == rest[n + 1..] && s[n + 1] == rest[n];
      GroupSumCons(b, rest[..n + 1]);
    }
  }

  lemma GroupsOfLast(s: seq<byte>, k: nat)
    requires k <= 4 && (s == [] || s[0] < 128 || k == 4)
    ensures ReadGroups(s, k) == GroupsOf(s, k)
  {
    if s != [] && s[0] < 128 {
      assert s[..1] == [s[0]] + [];
      GroupSumCons(s[0], []);
      hide GroupSum;
    }
  }

  lemma ReadGroupsUnfolds(s: seq<byte>, k: nat)
    requires k < 4 && s != [] && s[0] >= 128
    ensures ReadGroups(s, k) ==
      match ReadGroups(s[1..], k + 1)
      case Err(e) => Err(e)
      case Ok(high, more) => Ok(s[0] % 128 + 128 * high, more)
  {
  }

  lemma {:induction false} ReadGroupsMeans(s: seq<byte>, k: nat)
    requires k <= 4
    ensures ReadGroups(s, k) == GroupsOf(s, k)
    decreases 4 - k
  {
    hide GroupsOf, ReadGroups;
    if s == [] || s[0] < 128 || k == 4 {
      GroupsOfLast(s, k);
    } else {
      ReadGroupsUnfolds(s, k);
      ReadGroupsMeans(s[1..], k + 1);
      assert s == [s[0]] + s[1..];
      GroupsOfCons(s[0], s[1..], k);
    }
  }

  /** Reading a varint, on every byte string: the groups up to the first byte without its top
      bit, if they fit 32 bits; the end of input if there is no such byte among fewer than
      five; overflow otherwise. */
  lemma ReadVarintMeans(s: seq<byte>)
    ensures var n := LastGroup(s);
      && (ReadVarint(s) == Err(UnexpectedEof) <==> (n == |s| && |s| < 5))
      && (ReadVarint(s).Ok? <==> (n < |s| && n < 5 && (n == 4 ==> s[n] < 16)))
      && (ReadVarint(s).Ok? ==> ReadVarint(s).value == GroupSum(s[..n + 1]) && ReadVarint(s).rest == s[n + 1..])
      && (ReadVarint(s).Err? ==> ReadVarint(s).error == UnexpectedEof || ReadVarint(s).error == VarintOverflow)
  {
    hide ReadGroups, GroupSum, LastGroup;
    ReadGroupsMeans(s, 0);
  }
}
