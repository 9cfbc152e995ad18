/** The top-K shortcut of a scored search against the full path: sort everything, paginate. */
module TopKWindow {
  import opened Options
  import opened Bytes
  import opened TopN

  const USIZE_MAX := 0xffff_ffff_ffff_ffff

  type usize = n: int | 0 <= n <= USIZE_MAX

  /** A matched document's score and internal id. */
  datatype Scored = Scored(score: real, id: u32)

  datatype Response = Response(hits: seq<Scored>, total: nat, maxScore: Option<real>)

  /** Score descending, then internal id ascending. */
  function PairOrder(a: Scored, b: Scored): Ordering {
    if b.score < a.score then Less
    else if a.score < b.score then Greater
    else if a.id < b.id then Less
    else if b.id < a.id then Greater
    else Equal
  }

  lemma PairOrderTotal()
    ensures TotalOrder(PairOrder)
  {
  }

  predicate Passes(d: Scored, min: Option<real>) {
    min.None? || d.score >= min.value
  }

  /** The documents left after the `min_score` filter. */
  function Retain(docs: seq<Scored>, min: Option<real>): seq<Scored> {
    if docs == [] then []
    else
      var front, last := Retain(docs[..|docs| - 1], min), docs[|docs| - 1];
      if Passes(last, min) then front + [last] else front
  }

  /** The score fold of the response. */
  function MaxScore(docs: seq<Scored>): Option<real> {
    if docs == [] then None
    else
      var last := docs[|docs| - 1].score;
      match MaxScore(docs[..|docs| - 1])
      case None => Some(last)
      case Some(m) => if last > m then Some(last) else Some(m)
  }

  /** `skip(from).take(size)` */
  function Window<T>(s: seq<T>, from: nat, size: nat): seq<T> {
    Take(if from <= |s| then s[from..] else [], size)
  }

  /** How many hits the collector has to keep; the addition saturates. */
  function WindowLimit(from: usize, size: usize): usize {
    if size == 0 then 0 else if from + size <= USIZE_MAX then from + size else USIZE_MAX
  }

  /** What the shortcut answers for documents arriving in the given order. */
  function TopKResponse(arrival: seq<Scored>, min: Option<real>, from: usize, size: usize): Response {
    var kept := Retain(arrival, min);
    Response(Window(Best(PairOrder, kept, WindowLimit(from, size)), from, size), |kept|, MaxScore(kept))
  }

  /** What the full path answers, given the sorted list. */
  function FullResponse(sorted: seq<Scored>, from: usize, size: usize): Response {
    Response(Window(sorted, from, size), |sorted|, MaxScore(sorted))
  }

  /** The collecting loop of the shortcut. */
  method FinalizeTopK(scored: seq<Scored>, min: Option<real>, from: usize, size: usize) returns (r: Response)
    ensures r == TopKResponse(scored, min, from, size)
  {
    hide Best, TotalOrder, Window;
    PairOrderTotal();
    var topn := new TopN<Scored>(WindowLimit(from, size), PairOrder);
    var total, maxScore := 0, None;
    for i := 0 to |scored|
      invariant topn.Valid() && fresh(topn) && topn.cmp == PairOrder && topn.capacity == WindowLimit(from, size)
      invariant topn.offered == Retain(scored[..i], min)
      invariant total == |topn.offered| && maxScore == MaxScore(topn.offered)
    {
      var d := scored[i];
      assert scored[..i + 1][..i] == scored[..i];
      if min.Some? && d.score < min.value {
        continue;
      }
      total := total + 1;
      MaxScoreSnoc(topn.offered, d);
      if maxScore.None? || d.score > maxScore.value {
        maxScore := Some(d.score);
      }
      topn.Push(d);
    }
    assert scored[..|scored|] == scored;
    var kept := topn.IntoSortedVec();
    r := Response(Window(kept, from, size), total, maxScore);
  }

  lemma MaxScoreSnoc(docs: seq<Scored>, d: Scored)
    ensures MaxScore(docs + [d]) ==
      match MaxScore(docs)
      case None => Some(d.score)
      case Some(m) => if d.score > m then Some(d.score) else Some(m)
  {
    assert (docs + [d])[..|docs|] == docs;
  }

  // A stable sort by descending score

  /** The documents with a given score, in list order. */
  ghost function WithScore(docs: seq<Scored>, v: real): seq<Scored> {
    if docs == [] then []
    else if docs[0].score == v then [docs[0]] + WithScore(docs[1..], v)
    else WithScore(docs[1..], v)
  }

  ghost predicate Descending(docs: seq<Scored>) {
    forall i, j :: 0 <= i < j < |docs| ==> docs[i].score >= docs[j].score
  }

  ghost predicate IdsAscend(docs: seq<Scored>) {
    forall i, j :: 0 <= i < j < |docs| ==> docs[i].id < docs[j].id
  }

  /** The contract of the library's stable sort, for a comparator that looks at scores only:
      scores descend, and documents of equal score are the same and keep their order. */
  ghost predicate IsStableSort(out: seq<Scored>, input: seq<Scored>) {
    Descending(out) && forall v :: WithScore(out, v) == WithScore(input, v)
  }

  lemma {:induction false} WithScoreMembers(docs: seq<Scored>, v: real, d: Scored)
    ensures multiset(WithScore(docs, v))[d] == if d.score == v then multiset(docs)[d] else 0
  {
    if docs != [] {
      assert docs == [docs[0]] + docs[1..];
      WithScoreMembers(docs[1..], v, d);
    }
  }

  /** A stable sort rearranges its input. */
  lemma StableSortPermutes(out: seq<Scored>, input: seq<Scored>)
    requires IsStableSort(out, input)
    ensures multiset(out) == multiset(input) && |out| == |input|
  {
    forall d ensures multiset(out)[d] == multiset(input)[d] {
      WithScoreMembers(out, d.score, d);
      WithScoreMembers(input, d.score, d);
    }
    assert |multiset(out)| == |out| && |multiset(input)| == |input|;
  }

  lemma {:induction false} WithScoreAscends(docs: seq<Scored>, v: real)
    requires IdsAscend(docs)
    ensures IdsAscend(WithScore(docs, v))
  {
    if docs != [] {
      WithScoreAscends(docs[1..], v);
      var rest := WithScore(docs[1..], v);
      forall i | 0 <= i < |rest| ensures docs[0].id < rest[i].id {
        WithScoreMembers(docs[1..], v, rest[i]);
        assert rest[i] in multiset(rest);
        assert rest[i] in docs[1..];
      }
    }
  }

  lemma {:induction false} StableIsSorted(out: seq<Scored>)
    requires Descending(out) && forall v :: IdsAscend(WithScore(out, v))
    ensures Sorted(PairOrder, out)
  {
    if out != [] {
      var rest := out[1..];
      forall v ensures IdsAscend(WithScore(rest, v)) {
        assert IdsAscend(WithScore(out, v));
        TailAscends(out, v);
      }
      StableIsSorted(rest);
      forall y | y in rest ensures PairOrder(out[0], y) != Greater {
        HeadComesFirst(out, y);
      }
      PrependSorted(PairOrder, out[0], rest);
      assert out == [out[0]] + rest;
    }
  }

  lemma TailAscends(out: seq<Scored>, v: real)
    requires out != [] && IdsAscend(WithScore(out, v))
    ensures IdsAscend(WithScore(out[1..], v))
  {
    if out[0].score == v {
      assert WithScore(out[1..], v) == WithScore(out, v)[1..];
    }
  }

  lemma AfterHead(x: Scored, s: seq<Scored>, y: Scored)
    requires IdsAscend([x] + s) && y in s
    ensures x.id < y.id
  {
    var k :| 0 <= k < |s| && s[k] == y;
    assert ([x] + s)[0] == x && ([x] + s)[k + 1] == y;
  }

  lemma HeadComesFirst(out: seq<Scored>, y: Scored)
    requires out != [] && Descending(out) && IdsAscend(WithScore(out, out[0].score)) && y in out[1..]
    ensures PairOrder(out[0], y) != Greater
  {
    hide IdsAscend;
    var rest, v := out[1..], out[0].score;
    assert y.score <= v;
    if y.score == v {
      WithScoreMembers(rest, v, y);
      assert y in multiset(rest);
      assert y in multiset(WithScore(rest, v));
      AfterHead(out[0], WithScore(rest, v), y);
    }
  }

  /** On documents in id order, the stable sort by score is the sort by score and id. */
  lemma StableSortIsTotalSort(out: seq<Scored>, docs: seq<Scored>)
    requires IdsAscend(docs) && IsStableSort(out, docs)
    ensures out == Sort(PairOrder, docs)
  {
    hide Sort, TotalOrder, Sorted;
    PairOrderTotal();
    forall v ensures IdsAscend(WithScore(out, v)) {
      WithScoreAscends(docs, v);
    }
    StableIsSorted(out);
    StableSortPermutes(out, docs);
    SortSorts(PairOrder, docs);
    SortedUnique(PairOrder, out, Sort(PairOrder, docs));
  }

  /** The sort by score and id meets the stable sort's contract, so the contract can be met. */
  lemma TotalSortIsStable(docs: seq<Scored>)
    requires IdsAscend(docs)
    ensures IsStableSort(Sort(PairOrder, docs), docs)
  {
    hide Sort, TotalOrder;
    var out := Sort(PairOrder, docs);
    PairOrderTotal();
    SortSorts(PairOrder, docs);
    forall v ensures WithScore(out, v) == WithScore(docs, v) {
      hide Sorted;
      WithScoreSorted(out, v);
      AscendingSorted(docs, v);
      forall d ensures multiset(WithScore(out, v))[d] == multiset(WithScore(docs, v))[d] {
        WithScoreMembers(out, v, d);
        WithScoreMembers(docs, v, d);
      }
      SortedUnique(PairOrder, WithScore(out, v), WithScore(docs, v));
    }
  }

  lemma {:induction false} WithScoreSorted(docs: seq<Scored>, v: real)
    requires Sorted(PairOrder, docs)
    ensures Sorted(PairOrder, WithScore(docs, v))
  {
    if docs != [] {
      hide PairOrder;
      var rest := WithScore(docs[1..], v);
      WithScoreSorted(docs[1..], v);
      if docs[0].score == v {
        forall y | y in rest ensures PairOrder(docs[0], y) != Greater {
          WithScoreMembers(docs[1..], v, y);
          assert y in multiset(rest);
          assert y in docs[1..];
        }
        PrependSorted(PairOrder, docs[0], rest);
      }
    }
  }

  lemma AscendingSorted(docs: seq<Scored>, v: real)
    requires IdsAscend(docs)
    ensures Sorted(PairOrder, WithScore(docs, v))
  {
    WithScoreAscends(docs, v);
    var s := WithScore(docs, v);
    forall i | 0 <= i < |s| ensures s[i].score == v {
      WithScoreMembers(docs, v, s[i]);
      assert s[i] in multiset(s);
    }
  }

  // The two paths agree

  lemma {:induction false} RetainMembers(docs: seq<Scored>, min: Option<real>, d: Scored)
    ensures multiset(Retain(docs, min))[d] == if Passes(d, min) then multiset(docs)[d] else 0
  {
    if docs != [] {
      var front, last := docs[..|docs| - 1], docs[|docs| - 1];
      assert docs == front + [last];
      RetainMembers(front, min, d);
    }
  }

  lemma {:induction false} RetainAscends(docs: seq<Scored>, min: Option<real>)
    requires IdsAscend(docs)
    ensures IdsAscend(Retain(docs, min))
  {
    if docs != [] {
      var front, last := docs[..|docs| - 1], docs[|docs| - 1];
      RetainAscends(front, min);
      var kept := Retain(front, min);
      forall i | 0 <= i < |kept| ensures kept[i].id < last.id {
        RetainMembers(front, min, kept[i]);
        assert kept[i] in multiset(kept);
        assert kept[i] in front;
      }
    }
  }

  lemma RetainRearranged(a: seq<Scored>, b: seq<Scored>, min: Option<real>)
    requires multiset(a) == multiset(b)
    ensures multiset(Retain(a, min)) == multiset(Retain(b, min))
  {
    forall d ensures multiset(Retain(a, min))[d] == multiset(Retain(b, min))[d] {
      RetainMembers(a, min, d);
      RetainMembers(b, min, d);
    }
  }

  ghost predicate Attained(docs: seq<Scored>, m: real) {
    exists d :: d in docs && d.score == m
  }

  ghost predicate Bounds(docs: seq<Scored>, m: real) {
    forall d :: d in docs ==> d.score <= m
  }

  lemma AttainedSnoc(docs: seq<Scored>, d: Scored, m: real)
    ensures Attained(docs + [d], m) <==> (Attained(docs, m) || d.score == m)
    ensures Bounds(docs + [d], m) <==> (Bounds(docs, m) && d.score <= m)
  {
    assert d in docs + [d];
    if Attained(docs, m) {
      var x :| x in docs && x.score == m;
      assert x in docs + [d];
    }
    if Bounds(docs + [d], m) {
      forall x | x in docs ensures x.score <= m {
        assert x in docs + [d];
      }
    }
  }

  lemma BoundsWeaken(docs: seq<Scored>, m: real, m': real)
    requires Bounds(docs, m) && m <= m'
    ensures Bounds(docs, m')
  {
  }

  /** The fold is the maximum. */
  lemma {:induction false} MaxScoreIsMaximum(docs: seq<Scored>)
    ensures MaxScore(docs).None? <==> docs == []
    ensures MaxScore(docs).Some? ==> Attained(docs, MaxScore(docs).value) && Bounds(docs, MaxScore(docs).value)
  {
    if docs != [] {
      hide Attained, Bounds, MaxScore;
      var front, last := docs[..|docs| - 1], docs[|docs| - 1];
      assert docs == front + [last];
      MaxScoreIsMaximum(front);
      MaxScoreSnoc(front, last);
      match MaxScore(front) {
        case None =>
          NoDocsBounded(last.score);
          AttainedSnoc(front, last, last.score);
        case Some(m) =>
          if last.score > m {
            BoundsWeaken(front, m, last.score);
            AttainedSnoc(front, last, last.score);
          } else {
            AttainedSnoc(front, last, m);
          }
      }
    }
  }

  lemma NoDocsBounded(m: real)
    ensures Bounds([], m)
  {
  }

  lemma MaximumUnique(a: seq<Scored>, b: seq<Scored>, m: real, m': real)
    requires multiset(a) == multiset(b)
    requires Attained(a, m) && Bounds(a, m) && Attained(b, m') && Bounds(b, m')
    ensures m == m'
  {
    var x :| x in a && x.score == m;
    var y :| y in b && y.score == m';
    assert x in multiset(b) && y in multiset(a);
  }

  lemma MaxScoreRearranged(a: seq<Scored>, b: seq<Scored>)
    requires multiset(a) == multiset(b)
    ensures MaxScore(a) == MaxScore(b)
  {
    hide MaxScore, Attained, Bounds;
    MaxScoreIsMaximum(a);
    MaxScoreIsMaximum(b);
    assert |a| == |multiset(a)| && |b| == |multiset(b)|;
    if a != [] {
      MaximumUnique(a, b, MaxScore(a).value, MaxScore(b).value);
    }
  }

  lemma WindowOfBest<T>(s: seq<T>, from: usize, size: usize)
    requires |s| <= USIZE_MAX
    ensures Window(Take(s, WindowLimit(from, size)), from, size) == Window(s, from, size)
  {
  }

  /** Ids are distinct 32-bit words, so a result list fits the address space. */
  lemma {:induction false} ListFits(docs: seq<Scored>)
    requires IdsAscend(docs)
    ensures docs == [] || docs[|docs| - 1].id >= |docs| - 1
  {
    if |docs| > 1 {
      ListFits(docs[..|docs| - 1]);
    }
  }

  /** The shortcut answers what the full path answers: the same window, total and maximum
      score, for every order of arrival, `min_score`, `from` and `size`. */
  lemma TopKIsFullPath(docs: seq<Scored>, arrival: seq<Scored>, sorted: seq<Scored>, min: Option<real>, from: usize,
                       size: usize)
    requires IdsAscend(docs) && multiset(arrival) == multiset(docs)
    requires IsStableSort(sorted, Retain(docs, min))
    ensures TopKResponse(arrival, min, from, size) == FullResponse(sorted, from, size)
  {
    hide Sort, TotalOrder, Retain, MaxScore, Take, Window, IsStableSort, WindowLimit;
    var kept, kept' := Retain(docs, min), Retain(arrival, min);
    RetainAscends(docs, min);
    StableSortIsTotalSort(sorted, kept);
    StableSortPermutes(sorted, kept);
    RetainRearranged(arrival, docs, min);
    PairOrderTotal();
    ArrivalOrderIrrelevant(PairOrder, kept', kept, WindowLimit(from, size));
    MaxScoreRearranged(kept', sorted);
    ListFits(kept);
    WindowOfBest(sorted, from, size);
    assert |kept'| == |multiset(kept')|;
  }

  // The competitive threshold

  /** With `k` documents collected and ids arriving in ascending order, a document enters the
      best `k` exactly when its score is strictly above the `k`-th. */
  lemma ThresholdIsExact(offered: seq<Scored>, x: Scored, k: nat)
    requires 0 < k <= |offered| && forall d :: d in offered ==> d.id < x.id
    ensures |Best(PairOrder, offered, k)| == k
    ensures Best(PairOrder, offered + [x], k) != Best(PairOrder, offered, k)
      <==> x.score > Best(PairOrder, offered, k)[k - 1].score
  {
    hide Sort, TotalOrder, Sorted, Insert;
    PairOrderTotal();
    var s := Sort(PairOrder, offered);
    SortSorts(PairOrder, offered);
    assert Best(PairOrder, offered, k)[k - 1] == s[k - 1];
    assert s[k - 1] in multiset(offered);
    BestSnoc(PairOrder, offered, x, k);
    TakeInsert(PairOrder, s, x, k);
    if PairOrder(x, s[k - 1]) == Less {
      TakeChanged(PairOrder, s, x, k);
      Entered(s, x, k);
    } else {
      TakeUnchanged(PairOrder, s, x, k);
    }
  }

  lemma Entered(s: seq<Scored>, x: Scored, k: nat)
    requires 0 < k <= |s| && x != s[k - 1]
    ensures multiset(Take(s, k)) - multiset{s[k - 1]} + multiset{x} != multiset(Take(s, k))
  {
    var m := multiset(Take(s, k));
    assert (m - multiset{s[k - 1]} + multiset{x})[x] == m[x] + 1;
  }

  /** The threshold a run has armed: the score of the `k`-th best, once `k` are collected. */
  ghost function Armed(offered: seq<Scored>, k: nat): Option<real> {
    PairOrderTotal();
    BestSorted(PairOrder, offered, k);
    if 0 < k <= |offered| then Some(Best(PairOrder, offered, k)[k - 1].score) else None
  }

  predicate Admits(kthBest: Option<real>, upperBound: real) {
    kthBest.None? || upperBound > kthBest.value
  }

  /** The documents a pruned run still offers, when `bound` is known of each score. */
  ghost function Pruned(docs: seq<Scored>, bound: Scored -> real, k: nat): seq<Scored> {
    if docs == [] then []
    else
      var offered, last := Pruned(docs[..|docs| - 1], bound, k), docs[|docs| - 1];
      if Admits(Armed(offered, k), bound(last)) then offered + [last] else offered
  }

  /** Skipping every document whose bound does not beat the live threshold changes nothing in
      the best `k`, over a whole run in id order. */
  lemma {:induction false} PruningIsSafe(docs: seq<Scored>, bound: Scored -> real, k: nat)
    requires IdsAscend(docs) && forall d :: d in docs ==> d.score <= bound(d)
    ensures Best(PairOrder, Pruned(docs, bound, k), k) == Best(PairOrder, docs, k)
  {
    hide Best, TotalOrder, Sorted;
    if docs != [] {
      var front, last := docs[..|docs| - 1], docs[|docs| - 1];
      assert docs == front + [last];
      PruningIsSafe(front, bound, k);
      var offered := Pruned(front, bound, k);
      BestSnoc(PairOrder, front, last, k);
      BestSnoc(PairOrder, offered, last, k);
      if !Admits(Armed(offered, k), bound(last)) {
        PairOrderTotal();
        BestSorted(PairOrder, front, k);
        BestSorted(PairOrder, offered, k);
        assert last in docs;
        ThresholdIsExact(front, last, k);
      }
    }
  }
}
