/** The composite aggregation and its paging: bucket counting, the `after` cursor, and the walk
    a client makes by sending each `after_key` back. */
module Composite {
  import opened Sequences
  import opened Options
  import opened TopN
  import opened BitOps

  /** JSON values; compound ones carry their rendering. */
  datatype Value =
    | Null
    | Bool(flag: bool)
    | Number(text: string)
    | Str(chars: string)
    | Array(items: seq<Value>, text: string)
    | Object(text: string)

  datatype TermsKey = BoolKey(flag: bool) | NumberKey(text: string) | StringKey(text: string) | OtherKey(text: string)

  type Key = seq<TermsKey>

  function FromValue(v: Value): TermsKey {
    match v
    case Bool(b) => BoolKey(b)
    case Number(t) => NumberKey(t)
    case Str(s) => StringKey(s)
    case Null => OtherKey("null")
    case Array(_, t) => OtherKey(t)
    case Object(t) => OtherKey(t)
  }

  function Terms(values: seq<Value>): (r: Key)
    ensures |r| == |values|
  {
    seq(|values|, i requires 0 <= i < |values| => FromValue(values[i]))
  }

  // The derived order of keys

  function CharOrder(a: char, b: char): Ordering {
    if a < b then Less else if a == b then Equal else Greater
  }

  function LexOrder<T>(cmp: (T, T) -> Ordering, a: seq<T>, b: seq<T>): Ordering {
    if a == [] then (if b == [] then Equal else Less)
    else if b == [] then Greater
    else if cmp(a[0], b[0]) != Equal then cmp(a[0], b[0])
    else LexOrder(cmp, a[1..], b[1..])
  }

  function StringOrder(a: string, b: string): Ordering {
    LexOrder(CharOrder, a, b)
  }

  function Variant(t: TermsKey): nat {
    match t
    case BoolKey(_) => 0
    case NumberKey(_) => 1
    case StringKey(_) => 2
    case OtherKey(_) => 3
  }

  function TermsOrder(a: TermsKey, b: TermsKey): Ordering {
    if Variant(a) < Variant(b) then Less
    else if Variant(a) > Variant(b) then Greater
    else match a
      case BoolKey(f) => if f == b.flag then Equal else if f then Greater else Less
      case NumberKey(t) => StringOrder(t, b.text)
      case StringKey(t) => StringOrder(t, b.text)
      case OtherKey(t) => StringOrder(t, b.text)
  }

  function KeyOrder(a: Key, b: Key): Ordering {
    LexOrder(TermsOrder, a, b)
  }

  lemma {:induction false} LexEqual<T(!new)>(cmp: (T, T) -> Ordering, a: seq<T>, b: seq<T>)
    requires TotalOrder(cmp)
    ensures LexOrder(cmp, a, b) == Equal <==> a == b
  {
    if a != [] && b != [] {
      LexEqual(cmp, a[1..], b[1..]);
      assert a == [a[0]] + a[1..] && b == [b[0]] + b[1..];
    }
  }

  lemma {:induction false} LexMirror<T(!new)>(cmp: (T, T) -> Ordering, a: seq<T>, b: seq<T>)
    requires TotalOrder(cmp)
    ensures LexOrder(cmp, a, b) == Less <==> LexOrder(cmp, b, a) == Greater
  {
    if a != [] && b != [] {
      LexMirror(cmp, a[1..], b[1..]);
      assert cmp(a[0], b[0]) == Equal <==> cmp(b[0], a[0]) == Equal;
    }
  }

  lemma {:induction false} LexTransitive<T(!new)>(cmp: (T, T) -> Ordering, a: seq<T>, b: seq<T>, c: seq<T>)
    requires TotalOrder(cmp) && LexOrder(cmp, a, b) == Less && LexOrder(cmp, b, c) == Less
    ensures LexOrder(cmp, a, c) == Less
  {
    if a != [] {
      if cmp(a[0], b[0]) == Equal && cmp(b[0], c[0]) == Equal {
        LexTransitive(cmp, a[1..], b[1..], c[1..]);
      }
    }
  }

  lemma StringOrderTotal()
    ensures TotalOrder(StringOrder)
  {
    hide LexOrder;
    assert TotalOrder(CharOrder);
    forall x: string, y: string ensures StringOrder(x, y) == Equal <==> x == y {
      LexEqual(CharOrder, x, y);
    }
    forall x: string, y: string ensures StringOrder(x, y) == Less <==> StringOrder(y, x) == Greater {
      LexMirror(CharOrder, x, y);
    }
    forall x: string, y: string, z: string | StringOrder(x, y) == Less && StringOrder(y, z) == Less
      ensures StringOrder(x, z) == Less
    {
      LexTransitive(CharOrder, x, y, z);
    }
  }

  lemma TermsOrderTotal()
    ensures TotalOrder(TermsOrder)
  {
    hide StringOrder;
    StringOrderTotal();
  }

  /** Keys are totally ordered: no two distinct buckets compare equal. */
  lemma KeyOrderTotal()
    ensures TotalOrder(KeyOrder)
  {
    hide LexOrder, TermsOrder;
    TermsOrderTotal();
    forall x: Key, y: Key ensures KeyOrder(x, y) == Equal <==> x == y {
      LexEqual(TermsOrder, x, y);
    }
    forall x: Key, y: Key ensures KeyOrder(x, y) == Less <==> KeyOrder(y, x) == Greater {
      LexMirror(TermsOrder, x, y);
    }
    forall x: Key, y: Key, z: Key | KeyOrder(x, y) == Less && KeyOrder(y, z) == Less ensures KeyOrder(x, z) == Less {
      LexTransitive(TermsOrder, x, y, z);
    }
  }

  // Sources and documents

  /** What a document yields for a field is its stored value; the calendar truncation of a date
      histogram is a parameter of the source. */
  datatype Kind = TermsOf(field: string) | DateHistogram(field: string, truncate: Value -> Option<string>)

  datatype Source = Source(name: string, kind: Kind)

  type Document = map<string, Value>

  function FirstPresent(items: seq<Value>): Option<Value> {
    if items == [] then None else if items[0] != Null then Some(items[0]) else FirstPresent(items[1..])
  }

  function Scalar(v: Value): Option<Value> {
    match v
    case Array(items, _) => FirstPresent(items)
    case Null => None
    case _ => Some(v)
  }

  /** The bucket value a source gives a document, if it gives one. */
  function Project(d: Document, source: Source): Option<Value> {
    if source.kind.field !in d then None
    else match Scalar(d[source.kind.field])
      case None => None
      case Some(scalar) =>
        match source.kind
        case TermsOf(_) => Some(scalar)
        case DateHistogram(_, truncate) =>
          match truncate(scalar)
          case None => None
          case Some(text) => Some(Str(text))
  }

  predicate HasAll(d: Document, sources: seq<Source>) {
    forall i :: 0 <= i < |sources| ==> Project(d, sources[i]).Some?
  }

  function Values(d: Document, sources: seq<Source>): (r: seq<Value>)
    requires HasAll(d, sources)
    ensures |r| == |sources|
  {
    seq(|sources|, i requires 0 <= i < |sources| => Project(d, sources[i]).value)
  }

  /** The inner loop: collect the values, or give the document up. */
  method ProjectSources(d: Document, sources: seq<Source>) returns (values: Option<seq<Value>>)
    ensures values == if HasAll(d, sources) then Some(Values(d, sources)) else None
  {
    var collected := [];
    for i := 0 to |sources|
      invariant |collected| == i
      invariant forall j :: 0 <= j < i ==> Project(d, sources[j]) == Some(collected[j])
    {
      match Project(d, sources[i]) {
        case None => return None;
        case Some(v) => collected := collected + [v];
      }
    }
    assert collected == Values(d, sources);
    values := Some(collected);
  }

  // Counting

  datatype Bucket = Bucket(key: Key, values: seq<Value>, count: nat)

  /** One more document in the ordered map of counts. */
  function Bump(counts: seq<Bucket>, key: Key, values: seq<Value>): seq<Bucket> {
    if counts == [] then [Bucket(key, values, 1)]
    else match KeyOrder(counts[0].key, key)
      case Less => [counts[0]] + Bump(counts[1..], key, values)
      case Equal => [counts[0].(count := counts[0].count + 1)] + counts[1..]
      case Greater => [Bucket(key, values, 1)] + counts
  }

  ghost predicate Ascending(counts: seq<Bucket>) {
    forall i, j :: 0 <= i < j < |counts| ==> KeyOrder(counts[i].key, counts[j].key) == Less
  }

  function BucketsOf(docs: seq<Document>, sources: seq<Source>): seq<Bucket> {
    if docs == [] then []
    else
      var front, d := BucketsOf(docs[..|docs| - 1], sources), docs[|docs| - 1];
      if HasAll(d, sources) then Bump(front, Terms(Values(d, sources)), Values(d, sources)) else front
  }

  method CountBuckets(docs: seq<Document>, sources: seq<Source>) returns (counts: seq<Bucket>)
    ensures counts == BucketsOf(docs, sources)
  {
    hide HasAll, Bump;
    counts := [];
    for i := 0 to |docs|
      invariant counts == BucketsOf(docs[..i], sources)
    {
      assert docs[..i + 1][..i] == docs[..i];
      var values := ProjectSources(docs[i], sources);
      match values {
        case None => continue;
        case Some(v) => counts := Bump(counts, Terms(v), v);
      }
    }
    assert docs[..|docs|] == docs;
  }

  // What the buckets are, said without the counting

  ghost predicate InBucket(d: Document, sources: seq<Source>, key: Key) {
    HasAll(d, sources) && Terms(Values(d, sources)) == key
  }

  /** The documents of a bucket, in order. */
  ghost function Members(docs: seq<Document>, sources: seq<Source>, key: Key): seq<Document> {
    if docs == [] then []
    else
      var front, d := Members(docs[..|docs| - 1], sources, key), docs[|docs| - 1];
      if InBucket(d, sources, key) then front + [d] else front
  }

  ghost function Find(counts: seq<Bucket>, key: Key): Option<Bucket> {
    if counts == [] then None else if counts[0].key == key then Some(counts[0]) else Find(counts[1..], key)
  }

  lemma KeyEqual(a: Key, b: Key)
    ensures KeyOrder(a, b) == Equal <==> a == b
  {
    hide KeyOrder;
    KeyOrderTotal();
  }

  lemma KeyTransitive(a: Key, b: Key, c: Key)
    requires KeyOrder(a, b) == Less && KeyOrder(b, c) == Less
    ensures KeyOrder(a, c) == Less
  {
    hide KeyOrder;
    KeyOrderTotal();
  }

  lemma KeyMirror(a: Key, b: Key)
    ensures KeyOrder(a, b) == Less <==> KeyOrder(b, a) == Greater
  {
    hide KeyOrder;
    KeyOrderTotal();
  }

  lemma FindCons(b: Bucket, counts: seq<Bucket>, k: Key)
    ensures Find([b] + counts, k) == if b.key == k then Some(b) else Find(counts, k)
  {
    assert ([b] + counts)[1..] == counts;
  }

  /** One more, or the first. */
  ghost function Bumped(found: Option<Bucket>, key: Key, values: seq<Value>): Option<Bucket> {
    match found
    case None => Some(Bucket(key, values, 1))
    case Some(b) => Some(b.(count := b.count + 1))
  }

  lemma {:induction false} FindBump(counts: seq<Bucket>, key: Key, values: seq<Value>, k: Key)
    requires Ascending(counts)
    ensures Find(Bump(counts, key, values), k) ==
      if k != key then Find(counts, k) else Bumped(Find(counts, key), key, values)
  {
    hide KeyOrder, Find;
    if counts == [] {
      FindNothing(k);
      FindNothing(key);
      FindCons(Bucket(key, values, 1), [], k);
      assert [Bucket(key, values, 1)] + [] == [Bucket(key, values, 1)];
    } else {
      var b, rest := counts[0], counts[1..];
      assert counts == [b] + rest;
      KeyEqual(b.key, key);
      FindCons(b, rest, k);
      match KeyOrder(b.key, key) {
        case Less =>
          FindBump(rest, key, values, k);
          FindCons(b, Bump(rest, key, values), k);
        case Equal =>
          FindCons(b.(count := b.count + 1), rest, k);
        case Greater =>
          NotFound(counts, key);
          FindCons(Bucket(key, values, 1), counts, k);
      }
    }
  }

  lemma FindNothing(k: Key)
    ensures Find([], k) == None
  {
  }

  lemma {:induction false} NotFound(counts: seq<Bucket>, key: Key)
    requires Ascending(counts) && (counts == [] || KeyOrder(counts[0].key, key) == Greater)
    ensures Find(counts, key) == None
  {
    hide KeyOrder;
    if counts != [] {
      KeyEqual(counts[0].key, key);
      if |counts| > 1 {
        KeyMirror(key, counts[0].key);
        KeyTransitive(key, counts[0].key, counts[1].key);
        KeyMirror(key, counts[1].key);
      }
      NotFound(counts[1..], key);
    }
  }

  lemma {:induction false} BumpAscends(counts: seq<Bucket>, key: Key, values: seq<Value>)
    requires Ascending(counts)
    ensures var r := Bump(counts, key, values);
      && Ascending(r) && r != [] && (r[0].key == key || (counts != [] && r[0].key == counts[0].key))
  {
    hide KeyOrder;
    if counts != [] {
      KeyEqual(counts[0].key, key);
      KeyMirror(key, counts[0].key);
      match KeyOrder(counts[0].key, key) {
        case Less =>
          BumpAscends(counts[1..], key, values);
          ConsAscends(counts[0], Bump(counts[1..], key, values));
        case Equal =>
        case Greater =>
          ConsAscends(Bucket(key, values, 1), counts);
      }
    }
  }

  lemma ConsAscends(b: Bucket, counts: seq<Bucket>)
    requires Ascending(counts) && counts != [] && KeyOrder(b.key, counts[0].key) == Less
    ensures Ascending([b] + counts)
  {
    hide KeyOrder;
    var r := [b] + counts;
    forall i, j | 0 <= i < j < |r| ensures KeyOrder(r[i].key, r[j].key) == Less {
      if i == 0 && j > 1 {
        KeyTransitive(b.key, counts[0].key, counts[j - 1].key);
      }
    }
  }

  /** The buckets are in strictly ascending key order. */
  lemma {:induction false} BucketsAscend(docs: seq<Document>, sources: seq<Source>)
    ensures Ascending(BucketsOf(docs, sources))
  {
    hide Ascending, Bump;
    if docs == [] {
      NoneAscend();
    } else {
      var front, d := docs[..|docs| - 1], docs[|docs| - 1];
      BucketsAscend(front, sources);
      if HasAll(d, sources) {
        BumpAscends(BucketsOf(front, sources), Terms(Values(d, sources)), Values(d, sources));
      }
    }
  }

  lemma NoneAscend()
    ensures Ascending([])
  {
  }

  /** There is a bucket for a key exactly when some document has it; it counts those documents
      and shows the values of the first. */
  lemma {:induction false} BucketsCount(docs: seq<Document>, sources: seq<Source>, key: Key)
    ensures Find(BucketsOf(docs, sources), key) ==
      var members := Members(docs, sources, key);
      if members == [] then None
      else if HasAll(members[0], sources) then Some(Bucket(key, Values(members[0], sources), |members|))
      else None
    ensures forall i :: 0 <= i < |Members(docs, sources, key)| ==>
      InBucket(Members(docs, sources, key)[i], sources, key)
  {
    hide Ascending, Bump, Terms;
    if docs != [] {
      var front, d := docs[..|docs| - 1], docs[|docs| - 1];
      BucketsCount(front, sources, key);
      if HasAll(d, sources) {
        BucketsAscend(front, sources);
        FindBump(BucketsOf(front, sources), Terms(Values(d, sources)), Values(d, sources), key);
      }
    }
  }

  // One page

  datatype AggBucket = AggBucket(key: map<string, Value>, docCount: nat)

  datatype Page = Page(buckets: seq<AggBucket>, afterKey: Option<map<string, Value>>)

  /** Source names are unique within a request; the parser refuses duplicates. */
  predicate DistinctNames(sources: seq<Source>) {
    forall i, j :: 0 <= i < j < |sources| ==> sources[i].name != sources[j].name
  }

  /** The key object of a bucket, filled source by source. */
  function KeyObject(sources: seq<Source>, values: seq<Value>): map<string, Value>
    requires |sources| == |values|
  {
    var n := |sources|;
    if n == 0 then map[] else KeyObject(sources[..n - 1], values[..n - 1])[sources[n - 1].name := values[n - 1]]
  }

  /** The cursor as the next request reads it; a name it lacks reads as null. */
  function CursorTerms(sources: seq<Source>, cursor: map<string, Value>): (r: Key)
    ensures |r| == |sources|
  {
    seq(|sources|, i requires 0 <= i < |sources| =>
      if sources[i].name in cursor then FromValue(cursor[sources[i].name]) else FromValue(Null))
  }

  function Cursor(sources: seq<Source>, after: Option<map<string, Value>>): Option<Key> {
    match after
    case None => None
    case Some(cursor) => Some(CursorTerms(sources, cursor))
  }

  predicate Beyond(key: Key, cursor: Option<Key>) {
    cursor.None? || KeyOrder(key, cursor.value) == Greater
  }

  /** The buckets strictly after the cursor. */
  function Past(counts: seq<Bucket>, cursor: Option<Key>): seq<Bucket> {
    if counts == [] then []
    else if Beyond(counts[0].key, cursor) then [counts[0]] + Past(counts[1..], cursor)
    else Past(counts[1..], cursor)
  }

  /** Every bucket shows one value per source, and those values are its key. */
  ghost predicate Shown(counts: seq<Bucket>, sources: seq<Source>) {
    forall b :: b in counts ==> |b.values| == |sources| && Terms(b.values) == b.key
  }

  function Shows(counts: seq<Bucket>, sources: seq<Source>): (r: seq<AggBucket>)
    requires forall b :: b in counts ==> |b.values| == |sources|
    ensures |r| == |counts|
  {
    if counts == [] then []
    else [AggBucket(KeyObject(sources, counts[0].values), counts[0].count)] + Shows(counts[1..], sources)
  }

  lemma {:induction false} PastMembers(counts: seq<Bucket>, cursor: Option<Key>)
    ensures forall b :: b in Past(counts, cursor) ==> b in counts && Beyond(b.key, cursor)
    ensures |Past(counts, cursor)| <= |counts|
  {
    hide Beyond;
    if counts != [] {
      PastMembers(counts[1..], cursor);
    }
  }

  lemma TakeMembers<T>(s: seq<T>, k: nat)
    ensures forall x :: x in Take(s, k) ==> x in s
  {
  }

  function PageOf(counts: seq<Bucket>, sources: seq<Source>, size: nat, after: Option<map<string, Value>>): Page
    requires forall b :: b in counts ==> |b.values| == |sources|
  {
    var filtered := Past(counts, Cursor(sources, after));
    PastMembers(counts, Cursor(sources, after));
    TakeMembers(filtered, size);
    var buckets := Shows(Take(filtered, size), sources);
    var chopped := |buckets| == size && |filtered| > size;
    Page(buckets, if chopped && buckets != [] then Some(buckets[|buckets| - 1].key) else None)
  }

  lemma {:induction false} BumpShown(counts: seq<Bucket>, key: Key, values: seq<Value>, sources: seq<Source>)
    requires Shown(counts, sources) && |values| == |sources| && Terms(values) == key
    ensures Shown(Bump(counts, key, values), sources)
  {
    hide KeyOrder, Terms;
    if counts != [] && KeyOrder(counts[0].key, key) == Less {
      BumpShown(counts[1..], key, values, sources);
    }
  }

  lemma {:induction false} BucketsShown(docs: seq<Document>, sources: seq<Source>)
    ensures Shown(BucketsOf(docs, sources), sources)
  {
    hide Bump;
    if docs != [] {
      var front, d := docs[..|docs| - 1], docs[|docs| - 1];
      BucketsShown(front, sources);
      if HasAll(d, sources) {
        BumpShown(BucketsOf(front, sources), Terms(Values(d, sources)), Values(d, sources), sources);
      }
    }
  }

  method ComputeComposite(docs: seq<Document>, sources: seq<Source>, size: nat, after: Option<map<string, Value>>)
    returns (page: Page)
    ensures forall b :: b in BucketsOf(docs, sources) ==> |b.values| == |sources|
    ensures page == PageOf(BucketsOf(docs, sources), sources, size, after)
  {
    hide BucketsOf;
    BucketsShown(docs, sources);
    var counts := CountBuckets(docs, sources);
    var filtered := Past(counts, Cursor(sources, after));
    var total := |filtered|;
    PastMembers(counts, Cursor(sources, after));
    TakeMembers(filtered, size);
    var buckets := Shows(Take(filtered, size), sources);
    var afterKey := None;
    if |buckets| == size && total > size && buckets != [] {
      afterKey := Some(buckets[|buckets| - 1].key);
    }
    page := Page(buckets, afterKey);
  }

  // Sending the cursor back

  lemma {:induction false} KeyObjectAt(sources: seq<Source>, values: seq<Value>, i: nat)
    requires |sources| == |values| && DistinctNames(sources) && i < |sources|
    ensures sources[i].name in KeyObject(sources, values)
    ensures KeyObject(sources, values)[sources[i].name] == values[i]
  {
    if i < |sources| - 1 {
      KeyObjectAt(sources[..|sources| - 1], values[..|sources| - 1], i);
    }
  }

  /** The cursor read back from an `after_key` is the key of the bucket it came from. */
  lemma CursorRoundTrip(sources: seq<Source>, values: seq<Value>)
    requires |sources| == |values| && DistinctNames(sources)
    ensures CursorTerms(sources, KeyObject(sources, values)) == Terms(values)
  {
    hide KeyObject;
    forall i | 0 <= i < |sources| ensures CursorTerms(sources, KeyObject(sources, values))[i] == Terms(values)[i] {
      KeyObjectAt(sources, values, i);
    }
  }

  lemma {:induction false} PastAscends(counts: seq<Bucket>, cursor: Option<Key>)
    requires Ascending(counts)
    ensures Ascending(Past(counts, cursor))
  {
    hide KeyOrder, Beyond;
    if counts != [] {
      var rest := Past(counts[1..], cursor);
      PastAscends(counts[1..], cursor);
      PastMembers(counts[1..], cursor);
      if rest != [] {
        assert rest[0] in counts[1..];
        var k :| 0 <= k < |counts[1..]| && counts[1..][k] == rest[0];
        assert KeyOrder(counts[0].key, counts[k + 1].key) == Less;
        ConsAscends(counts[0], rest);
      }
    }
  }

  lemma BeyondLater(key: Key, cursor: Option<Key>, later: Key)
    requires Beyond(later, cursor) && Beyond(key, Some(later))
    ensures Beyond(key, cursor)
  {
    hide KeyOrder;
    if cursor.Some? {
      KeyMirror(cursor.value, later);
      KeyMirror(later, key);
      KeyTransitive(cursor.value, later, key);
      KeyMirror(cursor.value, key);
    }
  }

  /** A cursor further on may be applied to what an earlier cursor left. */
  lemma {:induction false} PastPast(counts: seq<Bucket>, cursor: Option<Key>, later: Key)
    requires Beyond(later, cursor)
    ensures Past(counts, Some(later)) == Past(Past(counts, cursor), Some(later))
  {
    hide Beyond;
    if counts != [] {
      PastPast(counts[1..], cursor, later);
      if Beyond(counts[0].key, Some(later)) {
        BeyondLater(counts[0].key, cursor, later);
      }
    }
  }

  lemma {:induction false} PastAll(counts: seq<Bucket>, cursor: Option<Key>)
    requires forall b :: b in counts ==> Beyond(b.key, cursor)
    ensures Past(counts, cursor) == counts
  {
    hide Beyond;
    if counts != [] {
      PastAll(counts[1..], cursor);
    }
  }

  /** The cursor of the `n`-th bucket of an ascending list leaves the rest of the list. */
  lemma {:induction false} PastCut(counts: seq<Bucket>, n: nat)
    requires Ascending(counts) && 0 < n <= |counts|
    ensures Past(counts, Some(counts[n - 1].key)) == counts[n..]
  {
    hide KeyOrder;
    var key := counts[n - 1].key;
    KeyMirror(counts[0].key, key);
    KeyEqual(counts[0].key, key);
    if n == 1 {
      forall b | b in counts[1..] ensures Beyond(b.key, Some(key)) {
        KeyMirror(key, b.key);
      }
      PastAll(counts[1..], Some(key));
    } else {
      PastCut(counts[1..], n - 1);
    }
  }

  lemma {:induction false} ShowsAt(counts: seq<Bucket>, sources: seq<Source>, i: nat)
    requires (forall b :: b in counts ==> |b.values| == |sources|) && i < |counts|
    ensures |counts[i].values| == |sources| && Shows(counts, sources)[i].key == KeyObject(sources, counts[i].values)
  {
    hide KeyObject;
    if i > 0 {
      ShowsAt(counts[1..], sources, i - 1);
    }
  }

  /** Following `after_key` resumes exactly where the page stopped. */
  lemma Resume(counts: seq<Bucket>, sources: seq<Source>, size: nat, after: Option<map<string, Value>>)
    requires size >= 1 && Ascending(counts) && Shown(counts, sources) && DistinctNames(sources)
    ensures var left, page := Past(counts, Cursor(sources, after)), PageOf(counts, sources, size, after);
      && (page.afterKey.Some? <==> |left| > size)
      && (page.afterKey.Some? ==> Past(counts, Cursor(sources, page.afterKey)) == left[size..])
  {
    hide KeyObject, Terms, CursorTerms, KeyOrder, Past, Beyond;
    var cursor, page := Cursor(sources, after), PageOf(counts, sources, size, after);
    var left := Past(counts, cursor);
    if |left| > size {
      PastMembers(counts, cursor);
      TakeMembers(left, size);
      var b := left[size - 1];
      ShowsAt(Take(left, size), sources, size - 1);
      assert b in left;
      CursorRoundTrip(sources, b.values);
      PastPast(counts, cursor, b.key);
      PastAscends(counts, cursor);
      PastCut(left, size);
    }
  }

  // The client's walk

  /** The pages a client receives, sending each `after_key` back until there is none. */
  ghost function Follow(counts: seq<Bucket>, sources: seq<Source>, size: nat,
                        after: Option<map<string, Value>>): seq<Page>
    requires size >= 1 && Ascending(counts) && Shown(counts, sources) && DistinctNames(sources)
    decreases |Past(counts, Cursor(sources, after))|
  {
    var page := PageOf(counts, sources, size, after);
    Resume(counts, sources, size, after);
    [page] + if page.afterKey.Some? then Follow(counts, sources, size, page.afterKey) else []
  }

  ghost function Joined(pages: seq<Page>): seq<AggBucket> {
    if pages == [] then [] else pages[0].buckets + Joined(pages[1..])
  }

  lemma {:induction false} ShowsSplit(s: seq<Bucket>, k: nat, sources: seq<Source>)
    requires k <= |s| && forall b :: b in s ==> |b.values| == |sources|
    ensures Shows(s[..k], sources) + Shows(s[k..], sources) == Shows(s, sources)
  {
    hide KeyObject, Shows;
    if k > 0 {
      ShowsSplit(s[1..], k - 1, sources);
      assert s[..k][1..] == s[1..][..k - 1] && s[k..] == s[1..][k - 1..];
      ShowsUnfolds(s, sources);
      ShowsUnfolds(s[..k], sources);
      Reassociate([AggBucket(KeyObject(sources, s[0].values), s[0].count)],
                  Shows(s[1..][..k - 1], sources), Shows(s[k..], sources));
    } else {
      assert s[..k] == [] && s[k..] == s;
      ShowsNothing(sources);
    }
  }

  lemma ShowsUnfolds(s: seq<Bucket>, sources: seq<Source>)
    requires s != [] && forall b :: b in s ==> |b.values| == |sources|
    ensures Shows(s, sources) == [AggBucket(KeyObject(sources, s[0].values), s[0].count)] + Shows(s[1..], sources)
  {
    hide KeyObject;
  }

  lemma ShowsNothing(sources: seq<Source>)
    ensures Shows([], sources) == []
  {
  }

  /** How many requests a walk over `n` buckets takes. */
  function Requests(n: nat, size: nat): nat
    requires size >= 1
  {
    if n == 0 then 1 else (n + size - 1) / size
  }

  lemma RequestsStep(n: nat, size: nat)
    requires size >= 1 && n > size
    ensures Requests(n, size) == 1 + Requests(n - size, size)
  {
    var q, r := (n - 1) / size, (n - 1) % size;
    MulSplit(size, q, 1);
    DivModUnique(n - 1 + size, size, q + 1, r);
  }

  lemma RequestsLast(n: nat, size: nat)
    requires size >= 1 && n <= size
    ensures Requests(n, size) == 1
  {
    if n > 0 {
      DivModUnique(n + size - 1, size, 1, n - 1);
    }
  }

  lemma {:induction false} FollowFrom(counts: seq<Bucket>, sources: seq<Source>, size: nat, after: Option<map<string,
                                      Value>>)
    requires size >= 1 && Ascending(counts) && Shown(counts, sources) && DistinctNames(sources)
    ensures var left, pages := Past(counts, Cursor(sources, after)), Follow(counts, sources, size, after);
      && (forall b :: b in left ==> |b.values| == |sources|)
      && Joined(pages) == Shows(left, sources)
      && |pages| == Requests(|left|, size)
    decreases |Past(counts, Cursor(sources, after))|
  {
    hide KeyObject, Terms, CursorTerms, KeyOrder, Past, Beyond, Shows, Requests, Ascending, Cursor;
    var page, left := PageOf(counts, sources, size, after), Past(counts, Cursor(sources, after));
    PastMembers(counts, Cursor(sources, after));
    Resume(counts, sources, size, after);
    if page.afterKey.Some? {
      FollowFrom(counts, sources, size, page.afterKey);
      ShowsSplit(left, size, sources);
      RequestsStep(|left|, size);
      JoinedCons(page, Follow(counts, sources, size, page.afterKey));
    } else {
      RequestsLast(|left|, size);
      JoinedCons(page, []);
    }
  }

  lemma JoinedCons(page: Page, pages: seq<Page>)
    ensures Joined([page] + pages) == page.buckets + Joined(pages)
  {
    assert ([page] + pages)[1..] == pages;
  }

  // The whole walk

  ghost function DocCounts(buckets: seq<AggBucket>): nat {
    if buckets == [] then 0 else buckets[0].docCount + DocCounts(buckets[1..])
  }

  ghost function Total(counts: seq<Bucket>): nat {
    if counts == [] then 0 else counts[0].count + Total(counts[1..])
  }

  ghost function Complete(docs: seq<Document>, sources: seq<Source>): nat {
    if docs == [] then 0
    else Complete(docs[..|docs| - 1], sources) + if HasAll(docs[|docs| - 1], sources) then 1 else 0
  }

  lemma {:induction false} BumpTotal(counts: seq<Bucket>, key: Key, values: seq<Value>)
    ensures Total(Bump(counts, key, values)) == Total(counts) + 1
  {
    hide KeyOrder;
    if counts != [] {
      BumpTotal(counts[1..], key, values);
    }
  }

  lemma {:induction false} BucketsTotal(docs: seq<Document>, sources: seq<Source>)
    ensures Total(BucketsOf(docs, sources)) == Complete(docs, sources)
  {
    hide Bump, Total, HasAll;
    if docs == [] {
      NoBuckets();
    } else {
      var front, d := docs[..|docs| - 1], docs[|docs| - 1];
      BucketsTotal(front, sources);
      if HasAll(d, sources) {
        BumpTotal(BucketsOf(front, sources), Terms(Values(d, sources)), Values(d, sources));
      }
    }
  }

  lemma NoBuckets()
    ensures Total([]) == 0
  {
  }

  lemma {:induction false} ShowsTotal(counts: seq<Bucket>, sources: seq<Source>)
    requires forall b :: b in counts ==> |b.values| == |sources|
    ensures DocCounts(Shows(counts, sources)) == Total(counts)
  {
    hide KeyObject;
    if counts != [] {
      ShowsTotal(counts[1..], sources);
    }
  }

  /** Walking the pages yields every bucket once, in order, in as few requests as the size
      allows, and the counts add up to the documents that have every source. */
  lemma PagesAreTheBuckets(docs: seq<Document>, sources: seq<Source>, size: nat)
    requires size >= 1 && DistinctNames(sources)
    ensures var all := BucketsOf(docs, sources);
      && Ascending(all) && Shown(all, sources)
      && var pages := Follow(all, sources, size, None);
         && Joined(pages) == Shows(all, sources)
         && |pages| == Requests(|all|, size)
         && DocCounts(Joined(pages)) == Complete(docs, sources)
  {
    hide BucketsOf, Follow, Joined, Shows, Terms, Ascending, Requests;
    var all := BucketsOf(docs, sources);
    BucketsAscend(docs, sources);
    BucketsShown(docs, sources);
    FollowFrom(all, sources, size, None);
    PastAll(all, None);
    ShowsTotal(all, sources);
    BucketsTotal(docs, sources);
  }
}
