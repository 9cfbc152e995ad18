/** The bounded sorted collector, for any comparator that is a total order. */
module TopN {
  import opened Options

  datatype Ordering = Less | Equal | Greater

  /** Distinct items never compare equal, so the comparator alone breaks every tie. */
  ghost predicate TotalOrder<T(!new)>(cmp: (T, T) -> Ordering) {
    && (forall x, y :: cmp(x, y) == Equal <==> x == y)
    && (forall x, y :: cmp(x, y) == Less <==> cmp(y, x) == Greater)
    && (forall x, y, z :: cmp(x, y) == Less && cmp(y, z) == Less ==> cmp(x, z) == Less)
  }

  ghost predicate Sorted<T>(cmp: (T, T) -> Ordering, s: seq<T>) {
    forall i, j :: 0 <= i < j < |s| ==> cmp(s[i], s[j]) != Greater
  }

  function Take<T>(s: seq<T>, k: nat): seq<T> {
    if |s| <= k then s else s[..k]
  }

  /** Sorted insertion. */
  function Insert<T>(cmp: (T, T) -> Ordering, s: seq<T>, x: T): seq<T> {
    if s == [] then [x]
    else if cmp(s[0], x) == Less then [s[0]] + Insert(cmp, s[1..], x)
    else [x] + s
  }

  /** Everything offered, best first. */
  function Sort<T>(cmp: (T, T) -> Ordering, s: seq<T>): seq<T> {
    if s == [] then [] else Insert(cmp, Sort(cmp, s[..|s| - 1]), s[|s| - 1])
  }

  /** The best `k` of everything offered. */
  function Best<T>(cmp: (T, T) -> Ordering, offered: seq<T>, k: nat): seq<T> {
    Take(Sort(cmp, offered), k)
  }

  lemma {:induction false} InsertMembers<T>(cmp: (T, T) -> Ordering, s: seq<T>, x: T)
    ensures multiset(Insert(cmp, s, x)) == multiset(s) + multiset{x}
    ensures |Insert(cmp, s, x)| == |s| + 1
  {
    if s != [] {
      assert s == [s[0]] + s[1..];
      if cmp(s[0], x) == Less {
        InsertMembers(cmp, s[1..], x);
      }
    }
  }

  lemma PrependSorted<T>(cmp: (T, T) -> Ordering, x: T, s: seq<T>)
    requires Sorted(cmp, s) && forall y :: y in s ==> cmp(x, y) != Greater
    ensures Sorted(cmp, [x] + s)
  {
    var t := [x] + s;
    forall i, j | 0 <= i < j < |t| ensures cmp(t[i], t[j]) != Greater {
      assert t[j] == s[j - 1] && s[j - 1] in s;
    }
  }

  lemma AtMostTransitive<T(!new)>(cmp: (T, T) -> Ordering, x: T, y: T, z: T)
    requires TotalOrder(cmp) && cmp(x, y) != Greater && cmp(y, z) != Greater
    ensures cmp(x, z) != Greater
  {
    assert cmp(x, y) == Equal ==> x == y;
    assert cmp(y, z) == Equal ==> y == z;
  }

  lemma {:induction false} InsertSorted<T(!new)>(cmp: (T, T) -> Ordering, s: seq<T>, x: T)
    requires TotalOrder(cmp) && Sorted(cmp, s)
    ensures Sorted(cmp, Insert(cmp, s, x))
  {
    hide TotalOrder;
    if s != [] {
      assert s == [s[0]] + s[1..];
      if cmp(s[0], x) == Less {
        InsertSorted(cmp, s[1..], x);
        InsertMembers(cmp, s[1..], x);
        forall y | y in Insert(cmp, s[1..], x) ensures cmp(s[0], y) != Greater {
          assert y in multiset(Insert(cmp, s[1..], x));
        }
        PrependSorted(cmp, s[0], Insert(cmp, s[1..], x));
      } else {
        NotLess(cmp, s[0], x);
        forall y | y in s ensures cmp(x, y) != Greater {
          AtHead(cmp, s, y);
          AtMostTransitive(cmp, x, s[0], y);
        }
        PrependSorted(cmp, x, s);
      }
    }
  }

  lemma NotLess<T(!new)>(cmp: (T, T) -> Ordering, x: T, y: T)
    requires TotalOrder(cmp)
    ensures cmp(x, y) != Less <==> cmp(y, x) != Greater
  {
  }

  lemma AtHead<T(!new)>(cmp: (T, T) -> Ordering, s: seq<T>, y: T)
    requires TotalOrder(cmp) && Sorted(cmp, s) && y in s
    ensures cmp(s[0], y) != Greater
  {
    var i :| 0 <= i < |s| && s[i] == y;
    assert cmp(s[0], s[0]) == Equal;
  }

  /** The specification sort returns what was offered, in order. */
  lemma {:induction false} SortSorts<T(!new)>(cmp: (T, T) -> Ordering, s: seq<T>)
    requires TotalOrder(cmp)
    ensures Sorted(cmp, Sort(cmp, s)) && multiset(Sort(cmp, s)) == multiset(s) && |Sort(cmp, s)| == |s|
  {
    hide TotalOrder, Insert;
    if s != [] {
      var front, x := s[..|s| - 1], s[|s| - 1];
      assert s == front + [x];
      SortSorts(cmp, front);
      InsertSorted(cmp, Sort(cmp, front), x);
      InsertMembers(cmp, Sort(cmp, front), x);
    }
  }

  lemma Antisymmetric<T(!new)>(cmp: (T, T) -> Ordering, x: T, y: T)
    requires TotalOrder(cmp) && cmp(x, y) != Greater && cmp(y, x) != Greater
    ensures x == y
  {
    assert cmp(x, y) == Less ==> cmp(y, x) == Greater;
  }

  lemma TailMultiset<T>(s: seq<T>)
    requires s != []
    ensures s == [s[0]] + s[1..] && multiset(s[1..]) == multiset(s) - multiset{s[0]}
  {
    assert s == [s[0]] + s[1..];
  }

  /** There is one sorted arrangement of a multiset. */
  lemma {:induction false} SortedUnique<T(!new)>(cmp: (T, T) -> Ordering, s: seq<T>, t: seq<T>)
    requires TotalOrder(cmp) && Sorted(cmp, s) && Sorted(cmp, t) && multiset(s) == multiset(t)
    ensures s == t
  {
    hide TotalOrder;
    assert |s| == |multiset(s)| && |t| == |multiset(t)|;
    if s != [] {
      assert s[0] in multiset(t) && t[0] in multiset(s);
      AtHead(cmp, s, t[0]);
      AtHead(cmp, t, s[0]);
      Antisymmetric(cmp, s[0], t[0]);
      TailMultiset(s);
      TailMultiset(t);
      SortedUnique(cmp, s[1..], t[1..]);
    }
  }

  /** What is kept does not depend on the order of arrival. */
  lemma ArrivalOrderIrrelevant<T(!new)>(cmp: (T, T) -> Ordering, s: seq<T>, t: seq<T>, k: nat)
    requires TotalOrder(cmp) && multiset(s) == multiset(t)
    ensures Best(cmp, s, k) == Best(cmp, t, k)
  {
    hide TotalOrder, Sort, Sorted;
    SortSorts(cmp, s);
    SortSorts(cmp, t);
    SortedUnique(cmp, Sort(cmp, s), Sort(cmp, t));
  }

  lemma SpliceSorted<T(!new)>(cmp: (T, T) -> Ordering, a: seq<T>, x: T, b: seq<T>)
    requires TotalOrder(cmp) && Sorted(cmp, a + b)
    requires forall i :: 0 <= i < |a| ==> cmp(a[i], x) != Greater
    requires forall i :: 0 <= i < |b| ==> cmp(b[i], x) != Less
    ensures Sorted(cmp, a + [x] + b)
  {
    hide TotalOrder;
    var s, t := a + b, a + [x] + b;
    forall i, j | 0 <= i < j < |t| ensures cmp(t[i], t[j]) != Greater {
      if i == |a| {
        NotLess(cmp, b[j - 1 - |a|], x);
      } else if j != |a| {
        assert t[i] == s[if i < |a| then i else i - 1] && t[j] == s[if j < |a| then j else j - 1];
      }
    }
  }

  /** Inserting at any position that keeps the order is sorted insertion. */
  lemma InsertAt<T(!new)>(cmp: (T, T) -> Ordering, a: seq<T>, x: T, b: seq<T>)
    requires TotalOrder(cmp) && Sorted(cmp, a + b)
    requires forall i :: 0 <= i < |a| ==> cmp(a[i], x) != Greater
    requires forall i :: 0 <= i < |b| ==> cmp(b[i], x) != Less
    ensures a + [x] + b == Insert(cmp, a + b, x)
  {
    hide TotalOrder, Insert, Sorted;
    SpliceSorted(cmp, a, x, b);
    InsertSorted(cmp, a + b, x);
    InsertMembers(cmp, a + b, x);
    SortedUnique(cmp, a + [x] + b, Insert(cmp, a + b, x));
  }

  lemma TakeCons<T>(x: T, s: seq<T>, k: nat)
    requires k > 0
    ensures Take([x] + s, k) == [x] + Take(s, k - 1)
  {
  }

  lemma TakeTail<T>(s: seq<T>, k: nat)
    requires k > 0 && s != []
    ensures Take(s, k) == [s[0]] + Take(s[1..], k - 1) && Take(s, k)[1..] == Take(s[1..], k - 1)
  {
  }

  lemma TakeTake<T>(s: seq<T>, j: nat, k: nat)
    ensures Take(Take(s, k), j) == Take(s, if j < k then j else k)
  {
  }

  /** Only the best `k` so far matter for the best `k` after one more. */
  lemma {:induction false} TakeInsert<T>(cmp: (T, T) -> Ordering, s: seq<T>, x: T, k: nat)
    ensures Take(Insert(cmp, Take(s, k), x), k) == Take(Insert(cmp, s, x), k)
  {
    if k > 0 && s != [] {
      hide Take;
      var t := Take(s, k);
      TakeTail(s, k);
      if cmp(s[0], x) == Less {
        TakeInsert(cmp, s[1..], x, k - 1);
        TakeCons(s[0], Insert(cmp, t[1..], x), k);
        TakeCons(s[0], Insert(cmp, s[1..], x), k);
      } else {
        TakeCons(x, t, k);
        TakeCons(x, s, k);
        TakeTake(s, k - 1, k);
      }
    }
  }

  /** An item no better than the `k`-th of at least `k` changes nothing. */
  lemma {:induction false} TakeUnchanged<T(!new)>(cmp: (T, T) -> Ordering, s: seq<T>, x: T, k: nat)
    requires TotalOrder(cmp) && Sorted(cmp, s) && 0 < k <= |s| && cmp(x, s[k - 1]) != Less
    ensures Take(Insert(cmp, s, x), k) == Take(s, k)
  {
    hide TotalOrder;
    TakeTail(s, k);
    if cmp(s[0], x) == Less {
      if k > 1 {
        TakeUnchanged(cmp, s[1..], x, k - 1);
      }
      TakeCons(s[0], Insert(cmp, s[1..], x), k);
    } else {
      NotLess(cmp, s[0], x);
      NotLess(cmp, x, s[k - 1]);
      forall i | 0 <= i < k ensures s[i] == x {
        Squeezed(cmp, s, x, k, i);
      }
      TakeCons(x, s, k);
    }
  }

  lemma Squeezed<T(!new)>(cmp: (T, T) -> Ordering, s: seq<T>, x: T, k: nat, i: nat)
    requires TotalOrder(cmp) && Sorted(cmp, s) && i < k <= |s|
    requires cmp(x, s[0]) != Greater && cmp(s[k - 1], x) != Greater
    ensures s[i] == x
  {
    hide TotalOrder;
    AtHead(cmp, s, s[i]);
    AtMostTransitive(cmp, x, s[0], s[i]);
    if i < k - 1 {
      AtMostTransitive(cmp, s[i], s[k - 1], x);
    }
    Antisymmetric(cmp, s[i], x);
  }

  lemma SwapUnder<T>(head: T, s: seq<T>, t: seq<T>, gone: T, x: T)
    requires gone in s && multiset(t) == multiset(s) - multiset{gone} + multiset{x}
    ensures multiset([head] + t) == multiset([head] + s) - multiset{gone} + multiset{x}
  {
  }

  lemma TakeLast<T>(s: seq<T>, k: nat, x: T)
    requires 0 < k <= |s|
    ensures s[k - 1] in Take(s, k)
    ensures multiset([x] + Take(s, k - 1)) == multiset(Take(s, k)) - multiset{s[k - 1]} + multiset{x}
  {
    assert Take(s, k) == Take(s, k - 1) + [s[k - 1]];
  }

  /** A strictly better item does enter. */
  lemma {:induction false} TakeChanged<T(!new)>(cmp: (T, T) -> Ordering, s: seq<T>, x: T, k: nat)
    requires TotalOrder(cmp) && Sorted(cmp, s) && 0 < k <= |s| && cmp(x, s[k - 1]) == Less
    ensures multiset(Take(Insert(cmp, s, x), k)) == multiset(Take(s, k)) - multiset{s[k - 1]} + multiset{x}
  {
    hide TotalOrder, Take;
    TakeTail(s, k);
    if cmp(s[0], x) == Less {
      NotBoth(cmp, s[0], x);
      TakeCons(s[0], Insert(cmp, s[1..], x), k);
      TakeChanged(cmp, s[1..], x, k - 1);
      TakeLast(s[1..], k - 1, x);
      SwapUnder(s[0], Take(s[1..], k - 1), Take(Insert(cmp, s[1..], x), k - 1), s[k - 1], x);
    } else {
      TakeCons(x, s, k);
      TakeLast(s, k, x);
    }
  }

  lemma NotBoth<T(!new)>(cmp: (T, T) -> Ordering, x: T, y: T)
    requires TotalOrder(cmp)
    ensures !(cmp(x, y) == Less && cmp(y, x) == Less)
  {
  }

  /** One more item offered. */
  lemma BestSnoc<T>(cmp: (T, T) -> Ordering, offered: seq<T>, x: T, k: nat)
    ensures Best(cmp, offered + [x], k) == Take(Insert(cmp, Best(cmp, offered, k), x), k)
  {
    hide Take, Insert;
    assert (offered + [x])[..|offered|] == offered;
    TakeInsert(cmp, Sort(cmp, offered), x, k);
  }

  lemma TakeSorted<T>(cmp: (T, T) -> Ordering, s: seq<T>, k: nat)
    requires Sorted(cmp, s)
    ensures Sorted(cmp, Take(s, k))
  {
  }

  lemma BestSorted<T(!new)>(cmp: (T, T) -> Ordering, offered: seq<T>, k: nat)
    requires TotalOrder(cmp)
    ensures Sorted(cmp, Best(cmp, offered, k)) && |Best(cmp, offered, k)| == if |offered| < k then |offered| else k
  {
    hide TotalOrder, Sorted;
    SortSorts(cmp, offered);
    TakeSorted(cmp, Sort(cmp, offered), k);
  }

  lemma BeforeProbe<T(!new)>(cmp: (T, T) -> Ordering, s: seq<T>, x: T, mid: nat)
    requires TotalOrder(cmp) && Sorted(cmp, s) && mid < |s|
    ensures cmp(s[mid], x) != Greater ==> forall i :: 0 <= i < mid ==> cmp(s[i], x) != Greater
    ensures cmp(s[mid], x) != Less ==> forall i :: mid <= i < |s| ==> cmp(s[i], x) != Less
  {
    hide TotalOrder;
    forall i | 0 <= i < |s| ensures (cmp(s[mid], x) != Greater && i < mid) ==> cmp(s[i], x) != Greater
                            ensures (cmp(s[mid], x) != Less && mid <= i) ==> cmp(s[i], x) != Less {
      NotLess(cmp, s[mid], x);
      NotLess(cmp, s[i], x);
      if i < mid && cmp(s[mid], x) != Greater {
        AtMostTransitive(cmp, s[i], s[mid], x);
      }
      if mid < i && cmp(s[mid], x) != Less {
        AtMostTransitive(cmp, x, s[mid], s[i]);
      }
    }
  }

  /** The library's binary search over the kept items: a position at which the item can be
      inserted in order, whichever probe sequence is used. */
  method SearchPosition<T(!new)>(cmp: (T, T) -> Ordering, data: seq<T>, item: T) returns (pos: nat)
    requires TotalOrder(cmp) && Sorted(cmp, data)
    ensures pos <= |data|
    ensures forall i :: 0 <= i < pos ==> cmp(data[i], item) != Greater
    ensures forall i :: pos <= i < |data| ==> cmp(data[i], item) != Less
  {
    hide TotalOrder, Sorted;
    var lo, hi := 0, |data|;
    while lo < hi
      invariant 0 <= lo <= hi <= |data|
      invariant forall i :: 0 <= i < lo ==> cmp(data[i], item) != Greater
      invariant forall i :: hi <= i < |data| ==> cmp(data[i], item) != Less
    {
      var mid := (lo + hi) / 2;
      BeforeProbe(cmp, data, item, mid);
      match cmp(data[mid], item) {
        case Equal => return mid;
        case Less => lo := mid + 1;
        case Greater => hi := mid;
      }
    }
    pos := lo;
  }

  /** The collector. `offered` records what was pushed, in order of arrival. */
  class TopN<T(!new)> {
    const capacity: nat
    const cmp: (T, T) -> Ordering
    var data: seq<T>
    ghost var offered: seq<T>

    /** The kept items are the best of everything offered so far. */
    ghost predicate Valid()
      reads this
    {
      TotalOrder(cmp) && data == Best(cmp, offered, capacity)
    }

    constructor (capacity: nat, cmp: (T, T) -> Ordering)
      requires TotalOrder(cmp)
      ensures Valid() && offered == [] && this.capacity == capacity && this.cmp == cmp
    {
      this.capacity, this.cmp := capacity, cmp;
      data, offered := [], [];
    }

    method Push(item: T)
      requires Valid()
      modifies this
      ensures Valid() && offered == old(offered) + [item]
    {
      hide TotalOrder, Best, Sorted, Insert;
      BestSnoc(cmp, offered, item, capacity);
      BestSorted(cmp, offered, capacity);
      offered := offered + [item];
      if capacity == 0 {
        return;
      }
      if |data| < capacity {
        var pos := SearchPosition(cmp, data, item);
        assert data[..pos] + data[pos..] == data;
        InsertAt(cmp, data[..pos], item, data[pos..]);
        data := data[..pos] + [item] + data[pos..];
        return;
      }
      if cmp(item, data[|data| - 1]) != Less {
        TakeUnchanged(cmp, data, item, capacity);
        return;
      }
      var pos := SearchPosition(cmp, data, item);
      assert data[..pos] + data[pos..] == data;
      InsertAt(cmp, data[..pos], item, data[pos..]);
      data := data[..pos] + [item] + data[pos..];
      data := data[..capacity];
    }

    /** The `capacity`-th best item offered so far, once there are that many. */
    method WorstWhenFull() returns (worst: Option<T>)
      requires Valid()
      ensures worst.Some? <==> 0 < capacity <= |offered|
      ensures worst.Some? ==> |Sort(cmp, offered)| == |offered| && worst.value == Sort(cmp, offered)[capacity - 1]
    {
      hide TotalOrder, Sorted, Sort;
      SortSorts(cmp, offered);
      if capacity == 0 || |data| < capacity {
        return None;
      }
      worst := Some(data[|data| - 1]);
    }

    method IntoSortedVec() returns (kept: seq<T>)
      requires Valid()
      ensures kept == Best(cmp, offered, capacity)
    {
      kept := data;
    }
  }
}
