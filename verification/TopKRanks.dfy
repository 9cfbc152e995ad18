/** What a scored search answers, said by comparing scores and ids alone: who is kept, how many,
    and which document stands at each place. */
module TopKRanks {
  import opened Options
  import opened TopN
  import opened TopKWindow

  /** A score below the minimum is dropped; one equal to it is not. */
  predicate ReachesMinimum(d: Scored, min: Option<real>) {
    match min case None => true case Some(least) => !(d.score < least)
  }

  /** A better score, or the same score and a lower id. */
  predicate Precedes(a: Scored, b: Scored) {
    a.score > b.score || (a.score == b.score && a.id < b.id)
  }

  function Kept(docs: seq<Scored>, min: Option<real>): set<Scored> {
    set d | d in docs && ReachesMinimum(d, min)
  }

  /** The kept documents that come before `d`. */
  function Ahead(docs: seq<Scored>, min: Option<real>, d: Scored): set<Scored> {
    set e | e in docs && ReachesMinimum(e, min) && Precedes(e, d)
  }

  ghost predicate Distinct(s: seq<Scored>) {
    forall i, j :: 0 <= i < j < |s| ==> s[i] != s[j]
  }

  function Elements(s: seq<Scored>): set<Scored> {
    set d | d in s
  }

  lemma {:induction false} DistinctCount(s: seq<Scored>)
    requires Distinct(s)
    ensures |Elements(s)| == |s|
  {
    if s != [] {
      var front, last := s[..|s| - 1], s[|s| - 1];
      DistinctCount(front);
      assert last !in front;
      assert Elements(s) == Elements(front) + {last};
    }
  }

  lemma {:induction false} CountedOnce(s: seq<Scored>)
    requires forall d :: multiset(s)[d] <= 1
    ensures Distinct(s)
  {
    if s != [] {
      var front, last := s[..|s| - 1], s[|s| - 1];
      assert s == front + [last];
      assert multiset(s) == multiset(front) + multiset{last};
      forall d ensures multiset(front)[d] <= 1 {
        assert multiset(s)[d] >= multiset(front)[d];
      }
      CountedOnce(front);
      assert multiset(s)[last] == multiset(front)[last] + 1 <= 1;
      assert last !in front;
    }
  }

  lemma {:induction false} IdsCountOnce(docs: seq<Scored>, d: Scored)
    requires IdsAscend(docs)
    ensures multiset(docs)[d] <= 1
  {
    if docs != [] {
      var front, last := docs[..|docs| - 1], docs[|docs| - 1];
      assert docs == front + [last];
      IdsCountOnce(front, d);
      assert last !in front;
    }
  }

  /** The retained list holds the kept documents, each once. */
  lemma RetainedAre(docs: seq<Scored>, min: Option<real>)
    requires IdsAscend(docs)
    ensures Elements(Retain(docs, min)) == Kept(docs, min) && forall d :: multiset(Retain(docs, min))[d] <= 1
  {
    hide Retain, IdsAscend;
    forall d
      ensures multiset(Retain(docs, min))[d] <= 1
      ensures d in Retain(docs, min) <==> (d in docs && ReachesMinimum(d, min))
    {
      RetainMembers(docs, min, d);
      IdsCountOnce(docs, d);
      assert d in docs <==> multiset(docs)[d] > 0;
      assert d in Retain(docs, min) <==> multiset(Retain(docs, min))[d] > 0;
    }
  }

  /** In a list sorted by score and id, as many come before a document as stand before it. */
  lemma SortedRank(s: seq<Scored>, j: nat)
    requires Sorted(PairOrder, s) && Distinct(s) && j < |s|
    ensures |set e | e in s && Precedes(e, s[j])| == j
  {
    hide PairOrder;
    forall i | 0 <= i < |s| ensures Precedes(s[i], s[j]) <==> i < j {
      PrecedesIs(s[i], s[j]);
      PrecedesIs(s[j], s[i]);
    }
    var front := s[..j];
    assert Distinct(front);
    DistinctCount(front);
    assert Elements(front) == set e | e in s && Precedes(e, s[j]);
  }

  lemma PrecedesIs(a: Scored, b: Scored)
    ensures Precedes(a, b) <==> PairOrder(a, b) == Less
    ensures PairOrder(a, b) == Equal <==> a == b
    ensures PairOrder(a, b) == Greater <==> PairOrder(b, a) == Less
  {
  }

  /** The sorted list of the kept documents, by place. */
  lemma RankOfSorted(docs: seq<Scored>, min: Option<real>, j: nat)
    requires IdsAscend(docs)
    ensures var s := Sort(PairOrder, Retain(docs, min));
      && |s| == |Kept(docs, min)|
      && (j < |s| ==> s[j] in Kept(docs, min) && |Ahead(docs, min, s[j])| == j)
  {
    hide Sort, Sorted, Retain, IdsAscend, TotalOrder, PairOrder;
    var kept := Retain(docs, min);
    var s := Sort(PairOrder, kept);
    PairOrderTotal();
    SortSorts(PairOrder, kept);
    RetainedAre(docs, min);
    CountedOnce(kept);
    DistinctCount(kept);
    CountedOnce(s);
    forall d ensures d in s <==> d in Kept(docs, min) {
      assert d in s <==> d in multiset(s);
      assert d in kept <==> d in multiset(kept);
      assert d in kept <==> d in Elements(kept);
    }
    assert |multiset(s)| == |s| && |multiset(kept)| == |kept|;
    if j < |s| {
      SortedRank(s, j);
      assert s[j] in s;
      assert Ahead(docs, min, s[j]) == set e | e in s && Precedes(e, s[j]);
    }
  }

  /** The answer of the shortcut, for documents arriving in any order: how many reach the
      minimum, a full page of them if there are as many past the offset, and at each place of
      the page the document with so many ahead of it. */
  lemma HitsByRank(docs: seq<Scored>, arrival: seq<Scored>, min: Option<real>, from: usize, size: usize, i: nat)
    requires IdsAscend(docs) && multiset(arrival) == multiset(docs)
    ensures var r := TopKResponse(arrival, min, from, size);
      && r.total == |Kept(docs, min)|
      && |r.hits| == (if r.total <= from then 0 else if r.total - from < size then r.total - from else size)
      && (i < |r.hits| ==> r.hits[i] in Kept(docs, min) && |Ahead(docs, min, r.hits[i])| == from + i)
  {
    hide Retain, IdsAscend, TopKResponse, Sort, IsStableSort, Kept, Ahead, MaxScore;
    var s := Sort(PairOrder, Retain(docs, min));
    RetainAscends(docs, min);
    TotalSortIsStable(Retain(docs, min));
    TopKIsFullPath(docs, arrival, s, min, from, size);
    RankOfSorted(docs, min, from + i);
  }

  /** Its maximum score is the best of the kept documents. */
  lemma MaximumOfKept(docs: seq<Scored>, arrival: seq<Scored>, min: Option<real>, from: usize, size: usize)
    requires IdsAscend(docs) && multiset(arrival) == multiset(docs)
    ensures var best := TopKResponse(arrival, min, from, size).maxScore;
      && (best.None? <==> Kept(docs, min) == {})
      && (best.Some? ==> forall d :: d in Kept(docs, min) ==> d.score <= best.value)
      && (best.Some? ==> exists d :: d in Kept(docs, min) && d.score == best.value)
  {
    hide Retain, IdsAscend, Kept, Best, Window;
    var kept := Retain(docs, min);
    RetainRearranged(arrival, docs, min);
    MaxScoreRearranged(Retain(arrival, min), kept);
    MaxScoreIsMaximum(kept);
    RetainedAre(docs, min);
    assert forall d :: d in kept <==> d in Kept(docs, min);
    if kept == [] {
      assert Kept(docs, min) == {};
    } else {
      assert kept[0] in Kept(docs, min);
    }
  }
}
