/** The grammar of the length-prefixed format. */
module DeltaGrammar {
  import opened Sequences
  import opened Bytes
  import opened Leb128
  import opened BlockFormat
  import opened BlockedPostings
  import opened DeltaPostings
  import opened BlockGrammar

  /** The first id less `previous`, and every later one less the one before it. */
  function GapsFrom(previous: u32, ids: seq<u32>): (r: seq<u32>)
    requires Follows(previous, false, ids)
    ensures |r| == |ids|
    ensures ids != [] ==> r[0] == ids[0] - previous
    ensures forall i :: 0 < i < |ids| ==> r[i] == ids[i] - ids[i - 1]
    decreases ids
  {
    if ids == [] then [] else [ids[0] - previous] + GapsFrom(ids[0], ids[1..])
  }

  lemma GapsCons(previous: u32, started: bool, v: u32, ids: seq<u32>)
    requires previous <= v && (started ==> previous < v)
    ensures Follows(v, true, ids) <==> Follows(previous, started, [v] + ids)
    ensures Follows(v, true, ids) ==> Follows(v, false, ids) && Follows(previous, false, [v] + ids)
    ensures Follows(v, true, ids) ==> GapsFrom(previous, [v] + ids) == [v - previous] + GapsFrom(v, ids)
  {
    var all := [v] + ids;
    FollowsCons(previous, started, v, ids);
    FollowsCons(previous, false, v, ids);
    StartedOrNot(v, ids);
    hide Follows;
    assert all[1..] == ids;
  }

  lemma StartedOrNot(v: u32, ids: seq<u32>)
    ensures Follows(v, true, ids) ==> Follows(v, false, ids)
  {
  }

  lemma FollowsCons(previous: u32, started: bool, v: u32, ids: seq<u32>)
    requires previous <= v && (started ==> previous < v)
    ensures Follows(v, true, ids) <==> Follows(previous, started, [v] + ids)
  {
    var all := [v] + ids;
    if Follows(previous, started, all) {
      forall i, j | 0 <= i < j < |ids| ensures ids[i] < ids[j] {
        assert all[i + 1] < all[j + 1];
      }
      assert ids != [] ==> all[0] < all[1];
    }
  }

  lemma NothingFollows(previous: u32, started: bool)
    ensures Follows(previous, started, []) && GapsFrom(previous, []) == []
  {
  }

  lemma ReadIdsCons(s: seq<byte>, previous: u32, started: bool, delta: u32, more: seq<byte>, ids: seq<u32>,
                    rest: seq<byte>)
    requires ReadVarint(s) == Ok(delta, more) && previous + delta < U32_LIMIT && (started ==> delta > 0)
    requires ReadIds(more, |ids|, previous + delta, true) == Ok(ids, rest)
    ensures ReadIds(s, |ids| + 1, previous, started) == Ok([previous + delta] + ids, rest)
  {
    hide ReadVarint;
  }

  lemma {:induction false} IdsAccepted(s: seq<byte>, n: nat, previous: u32, started: bool) returns (k: nat)
    requires ReadIds(s, n, previous, started).Ok?
    ensures var r := ReadIds(s, n, previous, started);
      && k <= |s| && r.rest == s[k..] && Follows(previous, started, r.value) && Follows(previous, false, r.value)
      && AreNumbers(s[..k], GapsFrom(previous, r.value))
    decreases n
  {
    hide ReadVarint, IsNumber, Follows, GapsFrom;
    if n == 0 {
      NothingFollows(previous, started);
      NothingFollows(previous, false);
      k := 0;
    } else {
      var delta := ReadVarint(s).value;
      var v := previous + delta;
      var i := VarintAccepted(s);
      var ids := ReadIds(s[i..], n - 1, v, true).value;
      var j := IdsAccepted(s[i..], n - 1, v, true);
      k := i + j;
      DropTwice(s, i, j);
      hide ReadIds, AreNumbers;
      ReadIdsCons(s, previous, started, delta, s[i..], ids, s[k..]);
      GapsCons(previous, started, v, ids);
      assert s[..k][..i] == s[..i] && s[..k][i..] == s[i..][..j];
      NumbersCons(s[..k], i, delta, GapsFrom(v, ids));
    }
  }

  lemma {:induction false} IdsSentence(bs: seq<byte>, previous: u32, started: bool, ids: seq<u32>, rest: seq<byte>)
    requires Follows(previous, started, ids) && Follows(previous, false, ids) && AreNumbers(bs, GapsFrom(previous, ids))
    ensures ReadIds(bs + rest, |ids|, previous, started) == Ok(ids, rest)
    decreases |ids|
  {
    hide ReadVarint, IsNumber, GapsFrom, ReadIds, Follows;
    if ids == [] {
      assert bs + rest == rest;
      NothingFollows(previous, false);
      NothingPending(rest, previous, started);
    } else {
      hide AreNumbers;
      var v, later := ids[0], ids[1..];
      assert ids == [v] + later;
      StartedGaps(previous, started, ids);
      GapsCons(previous, started, v, later);
      var gaps := GapsFrom(previous, ids);
      assert gaps[1..] == GapsFrom(v, later) && gaps[0] == v - previous;
      var k := NumbersSplit(bs, gaps);
      var more := bs[k..] + rest;
      NumberRead(bs[..k], gaps[0], more);
      IdsSentence(bs[k..], v, true, later, rest);
      assert bs + rest == bs[..k] + more;
      ReadIdsCons(bs + rest, previous, started, gaps[0], more, later, rest);
    }
  }

  lemma StartedGaps(previous: u32, started: bool, ids: seq<u32>)
    requires Follows(previous, started, ids) && ids != []
    ensures previous <= ids[0] && (started ==> previous < ids[0])
  {
  }

  /** A list in this format: its length up to `i`, its gaps up to `j`, its frequencies. */
  ghost predicate IsListAt(s: seq<byte>, docs: seq<u32>, freqs: seq<u32>, i: nat, j: nat) {
    && |docs| == |freqs| < U32_LIMIT && Follows(0, false, docs)
    && i <= j <= |s| && IsNumber(s[..i], |docs|) && AreNumbers(s[i..j], GapsFrom(0, docs)) && AreNumbers(s[j..], freqs)
  }

  ghost predicate IsList(s: seq<byte>, docs: seq<u32>, freqs: seq<u32>) {
    exists i, j :: IsListAt(s, docs, freqs, i, j)
  }

  lemma ListAccepted(s: seq<byte>) returns (k: nat)
    requires DecodeDocFreqs(s).Ok?
    ensures var r := DecodeDocFreqs(s);
      k <= |s| && IsList(s[..k], r.value.0, r.value.1) && r.rest == s[k..]
  {
    hide ReadVarint, ReadIds, ReadVarints, IsNumber, AreNumbers, Follows, GapsFrom;
    var n := ReadVarint(s).value;
    var i := VarintAccepted(s);
    var j := IdsAccepted(s[i..], n, 0, false);
    var docs := ReadIds(s[i..], n, 0, false).value;
    var l := VarintsAccepted(s[i..][j..], n);
    k := i + j + l;
    DropTwice(s, i, j);
    DropTwice(s, i + j, l);
    var freqs, used := ReadVarints(s[i..][j..], n).value, s[..k];
    assert used[..i] == s[..i] && used[i..i + j] == s[i..][..j] && used[i + j..] == s[i..][j..][..l];
    assert IsListAt(used, docs, freqs, i, i + j);
  }

  lemma ListSentence(s: seq<byte>, docs: seq<u32>, freqs: seq<u32>, rest: seq<byte>)
    requires IsList(s, docs, freqs)
    ensures DecodeDocFreqs(s + rest) == Ok((docs, freqs), rest)
  {
    var i: nat, j: nat :| IsListAt(s, docs, freqs, i, j);
    hide ReadVarint, ReadIds, ReadVarints, IsNumber, AreNumbers, Follows, GapsFrom;
    hide DecodeDocFreqs;
    ThreeParts(s, i, j, rest);
    ListParts(s[..i], s[i..j], s[j..], docs, freqs, rest);
  }

  lemma ThreeParts(s: seq<byte>, i: nat, j: nat, rest: seq<byte>)
    requires i <= j <= |s|
    ensures s + rest == s[..i] + (s[i..j] + (s[j..] + rest))
  {
  }

  lemma ListParts(a: seq<byte>, b: seq<byte>, c: seq<byte>, docs: seq<u32>, freqs: seq<u32>, rest: seq<byte>)
    requires |docs| == |freqs| < U32_LIMIT && Follows(0, false, docs)
    requires IsNumber(a, |docs|) && AreNumbers(b, GapsFrom(0, docs)) && AreNumbers(c, freqs)
    ensures DecodeDocFreqs(a + (b + (c + rest))) == Ok((docs, freqs), rest)
  {
    hide ReadVarint, ReadIds, ReadVarints, IsNumber, AreNumbers, Follows, GapsFrom;
    NumberRead(a, |docs|, b + (c + rest));
    IdsSentence(b, 0, false, docs, c + rest);
    NumbersRead(c, freqs, rest);
  }

  /** Decoding yields these postings and leaves these bytes exactly if what comes before them is
      a list of these postings. */
  lemma ListDecodesIff(s: seq<byte>, docs: seq<u32>, freqs: seq<u32>, rest: seq<byte>)
    ensures DecodeDocFreqs(s) == Ok((docs, freqs), rest)
      <==> exists used :: s == used + rest && IsList(used, docs, freqs)
  {
    hide DecodeDocFreqs, IsList;
    if DecodeDocFreqs(s) == Ok((docs, freqs), rest) {
      var k := ListAccepted(s);
      assert s == s[..k] + rest;
    }
    forall used | s == used + rest && IsList(used, docs, freqs) ensures DecodeDocFreqs(s) == Ok((docs, freqs), rest) {
      ListSentence(used, docs, freqs, rest);
    }
  }

  /** Two postings, byte by byte: the length, the first id and the gap, the frequencies. */
  lemma TwoListed()
    ensures ValidPostings([3, 303], [1, 2]) && PostingsBytes([3, 303], [1, 2]) == [0x02, 0x03, 0xac, 0x02, 0x01, 0x02]
  {
    assert Varint(2) == [2] && Varint(3) == [3] && Varint(1) == [1];
    assert 300 / 128 == 2 && 300 % 128 == 44;
    assert Varint(300) == [0xac, 0x02];
    hide Varint;
    assert [3, 303][1..] == [303] && [303][1..] == [];
    assert DeltaBytes(303, []) == [];
    assert DeltaBytes(3, [303]) == [0xac, 0x02];
    assert DeltaBytes(0, [3, 303]) == [0x03, 0xac, 0x02];
    assert [1, 2][1..] == [2] && [2][1..] == [];
    assert Varints([2]) == [2] + [];
    assert Varints([1, 2]) == [1] + [2];
    hide DeltaBytes, Varints;
    assert 2 % U32_LIMIT == 2;
  }
}
