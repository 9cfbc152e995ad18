/** What a bucket of the composite aggregation gathers and how buckets are ordered, said over the
    documents' values. */
module CompositeKeys {
  import opened Options
  import opened TopN
  import opened Composite

  // What a source gives a document

  /** The value itself, or the first element of an array that is not null. */
  ghost predicate IsScalarOf(value: Value, scalar: Value) {
    scalar != Null && if value.Array? then IsFirst(value.items, scalar) else scalar == value
  }

  ghost predicate IsFirst(items: seq<Value>, scalar: Value) {
    exists i :: 0 <= i < |items| && items[i] == scalar && forall j :: 0 <= j < i ==> items[j] == Null
  }

  lemma IsFirstCons(items: seq<Value>, scalar: Value)
    requires items != [] && scalar != Null
    ensures IsFirst(items, scalar) <==> if items[0] == Null then IsFirst(items[1..], scalar) else scalar == items[0]
  {
    var rest := items[1..];
    if items[0] == Null && IsFirst(rest, scalar) {
      var i :| 0 <= i < |rest| && rest[i] == scalar && forall j :: 0 <= j < i ==> rest[j] == Null;
      assert items[i + 1] == scalar && forall j :: 0 <= j < i + 1 ==> items[j] == Null;
    }
    if IsFirst(items, scalar) {
      var i :| 0 <= i < |items| && items[i] == scalar && forall j :: 0 <= j < i ==> items[j] == Null;
      if i > 0 {
        assert items[0] == Null && rest[i - 1] == scalar;
        forall j | 0 <= j < i - 1 ensures rest[j] == Null { assert rest[j] == items[j + 1]; }
      }
    }
  }

  lemma {:induction false} FirstPresentMeans(items: seq<Value>, scalar: Value)
    ensures FirstPresent(items) == Some(scalar) <==> (scalar != Null && IsFirst(items, scalar))
  {
    if items != [] && scalar != Null {
      hide IsFirst;
      IsFirstCons(items, scalar);
      FirstPresentMeans(items[1..], scalar);
    } else if scalar == Null {
      NeverNull(items);
    }
  }

  lemma {:induction false} NeverNull(items: seq<Value>)
    ensures FirstPresent(items) != Some(Null)
  {
    if items != [] {
      NeverNull(items[1..]);
    }
  }

  lemma ScalarMeans(value: Value, scalar: Value)
    ensures Scalar(value) == Some(scalar) <==> IsScalarOf(value, scalar)
  {
    if value.Array? {
      hide IsFirst;
      FirstPresentMeans(value.items, scalar);
    }
  }

  /** The document has the field, and the field a scalar: kept as it is for `terms`, truncated
      to text for a date histogram. */
  ghost predicate Gives(d: Document, source: Source, v: Value) {
    && source.kind.field in d
    && exists scalar :: IsScalarOf(d[source.kind.field], scalar) && Becomes(source.kind, scalar, v)
  }

  predicate Becomes(kind: Kind, scalar: Value, v: Value) {
    if kind.TermsOf? then v == scalar else v.Str? && kind.truncate(scalar) == Some(v.chars)
  }

  lemma ProjectMeans(d: Document, source: Source, v: Value)
    ensures Project(d, source) == Some(v) <==> Gives(d, source, v)
  {
    hide IsScalarOf, Scalar;
    if source.kind.field in d {
      var value := d[source.kind.field];
      forall scalar ensures Scalar(value) == Some(scalar) <==> IsScalarOf(value, scalar) {
        ScalarMeans(value, scalar);
      }
    }
  }

  // When two documents share a bucket

  predicate IsCompound(v: Value) {
    v.Null? || v.Array? || v.Object?
  }

  function Rendering(v: Value): string
    requires IsCompound(v)
  {
    match v case Null => "null" case Array(_, t) => t case Object(t) => t
  }

  /** Equal booleans, numbers or strings; of anything else, equal renderings. */
  predicate SameKey(a: Value, b: Value) {
    if IsCompound(a) && IsCompound(b) then Rendering(a) == Rendering(b) else a == b
  }

  lemma SameKeyIff(a: Value, b: Value)
    ensures FromValue(a) == FromValue(b) <==> SameKey(a, b)
  {
  }

  ghost predicate Share(d: Document, e: Document, source: Source) {
    exists v, w :: Gives(d, source, v) && Gives(e, source, w) && SameKey(v, w)
  }

  ghost predicate Together(d: Document, e: Document, sources: seq<Source>) {
    exists key :: InBucket(d, sources, key) && InBucket(e, sources, key)
  }

  lemma ShareIs(d: Document, e: Document, source: Source)
    ensures Share(d, e, source) <==> (Project(d, source).Some? && Project(e, source).Some?
      && FromValue(Project(d, source).value) == FromValue(Project(e, source).value))
  {
    hide Gives, Project, SameKey, FromValue;
    forall v ensures Project(d, source) == Some(v) <==> Gives(d, source, v) { ProjectMeans(d, source, v); }
    forall v ensures Project(e, source) == Some(v) <==> Gives(e, source, v) { ProjectMeans(e, source, v); }
    forall v, w ensures FromValue(v) == FromValue(w) <==> SameKey(v, w) { SameKeyIff(v, w); }
    if Project(d, source).Some? && Project(e, source).Some? {
      var v, w := Project(d, source).value, Project(e, source).value;
      assert Gives(d, source, v) && Gives(e, source, w);
    }
  }

  /** Two documents are counted in one bucket exactly if every source gives both a value, and
      the same one. */
  lemma SameBucketIff(d: Document, e: Document, sources: seq<Source>)
    ensures Together(d, e, sources) <==> forall i :: 0 <= i < |sources| ==> Share(d, e, sources[i])
  {
    hide Share, Project, FromValue;
    forall i | 0 <= i < |sources|
      ensures Share(d, e, sources[i]) <==> (Project(d, sources[i]).Some? && Project(e, sources[i]).Some?
        && FromValue(Project(d, sources[i]).value) == FromValue(Project(e, sources[i]).value))
    {
      ShareIs(d, e, sources[i]);
    }
    if HasAll(d, sources) && HasAll(e, sources) {
      var a, b := Terms(Values(d, sources)), Terms(Values(e, sources));
      assert forall i :: 0 <= i < |sources| ==> a[i] == FromValue(Project(d, sources[i]).value);
      assert forall i :: 0 <= i < |sources| ==> b[i] == FromValue(Project(e, sources[i]).value);
      if forall i :: 0 <= i < |sources| ==> Share(d, e, sources[i]) {
        assert a == b;
        assert InBucket(d, sources, a) && InBucket(e, sources, a);
      }
    }
  }

  // The order of buckets

  /** The first difference decides; a proper prefix comes first. */
  ghost predicate LexBefore<T(!new)>(cmp: (T, T) -> Ordering, a: seq<T>, b: seq<T>) {
    || (|a| < |b| && a == b[..|a|])
    || exists i :: 0 <= i < |a| && i < |b| && a[..i] == b[..i] && cmp(a[i], b[i]) == Less
  }

  lemma {:induction false} LexMeans<T(!new)>(cmp: (T, T) -> Ordering, a: seq<T>, b: seq<T>)
    requires TotalOrder(cmp)
    ensures LexOrder(cmp, a, b) == Less <==> LexBefore(cmp, a, b)
  {
    if a != [] && b != [] {
      var p, q := a[1..], b[1..];
      if a[0] == b[0] {
        LexMeans(cmp, p, q);
        assert |a| < |b| ==> (a == b[..|a|] <==> p == q[..|p|]) by {
          if |a| < |b| { PrefixCons(a, b, |a|); }
        }
        if i :| 0 <= i < |p| && i < |q| && p[..i] == q[..i] && cmp(p[i], q[i]) == Less {
          PrefixCons(a, b, i + 1);
          assert cmp(a[i + 1], b[i + 1]) == Less;
        }
        if i :| 0 <= i < |a| && i < |b| && a[..i] == b[..i] && cmp(a[i], b[i]) == Less {
          assert i > 0;
          PrefixCons(a, b, i);
          assert cmp(p[i - 1], q[i - 1]) == Less;
        }
      } else {
        FirstDiffers(cmp, a, b);
      }
    }
  }

  lemma PrefixCons<T>(a: seq<T>, b: seq<T>, n: nat)
    requires 0 < n <= |a| && n <= |b| && a[0] == b[0]
    ensures a[..n] == b[..n] <==> a[1..][..n - 1] == b[1..][..n - 1]
    ensures a[..|a|] == a && a[1..][..|a| - 1] == a[1..]
  {
    assert a[..n] == [a[0]] + a[1..][..n - 1] && b[..n] == [b[0]] + b[1..][..n - 1];
    assert a[1..][..n - 1] == a[..n][1..] && b[1..][..n - 1] == b[..n][1..];
  }

  lemma FirstDiffers<T(!new)>(cmp: (T, T) -> Ordering, a: seq<T>, b: seq<T>)
    requires TotalOrder(cmp) && a != [] && b != [] && a[0] != b[0]
    ensures LexOrder(cmp, a, b) == Less <==> LexBefore(cmp, a, b)
  {
    if cmp(a[0], b[0]) == Less {
      assert a[..0] == b[..0];
    }
    forall n | 0 < n <= |a| && n <= |b| ensures a[..n] != b[..n] {
      assert a[..n][0] == a[0] && b[..n][0] == b[0];
    }
    assert a[..|a|] == a;
  }

  /** Text in character order. */
  ghost predicate TextBefore(a: string, b: string) {
    LexBefore(CharOrder, a, b)
  }

  lemma StringMeans(a: string, b: string)
    ensures StringOrder(a, b) == Less <==> TextBefore(a, b)
  {
    assert TotalOrder(CharOrder);
    LexMeans(CharOrder, a, b);
  }

  /** False, true, numbers by their text, strings, everything else by its rendering. */
  ghost predicate TermBefore(a: TermsKey, b: TermsKey) {
    match a
    case BoolKey(f) => !b.BoolKey? || (!f && b.flag)
    case NumberKey(t) => b.StringKey? || b.OtherKey? || (b.NumberKey? && TextBefore(t, b.text))
    case StringKey(t) => b.OtherKey? || (b.StringKey? && TextBefore(t, b.text))
    case OtherKey(t) => b.OtherKey? && TextBefore(t, b.text)
  }

  lemma TermsOrderMeans(a: TermsKey, b: TermsKey)
    ensures TermsOrder(a, b) == Less <==> TermBefore(a, b)
  {
    hide StringOrder, TextBefore;
    if !a.BoolKey? && !b.BoolKey? {
      StringMeans(a.text, b.text);
    }
  }

  /** Keys are compared source by source. */
  lemma KeyOrderMeans(a: Key, b: Key)
    requires |a| == |b|
    ensures KeyOrder(a, b) == Less <==> exists i :: 0 <= i < |a| && a[..i] == b[..i] && TermBefore(a[i], b[i])
  {
    hide LexOrder, TermsOrder, TermBefore;
    TermsOrderTotal();
    LexMeans(TermsOrder, a, b);
    forall i | 0 <= i < |a| ensures TermsOrder(a[i], b[i]) == Less <==> TermBefore(a[i], b[i]) {
      TermsOrderMeans(a[i], b[i]);
    }
  }

  /** Numbers are ordered by their text, not their size. */
  lemma TenBeforeNine()
    ensures TermsOrder(NumberKey("10"), NumberKey("9")) == Less
  {
    hide StringOrder;
    assert "10"[..0] == "9"[..0] && CharOrder("10"[0], "9"[0]) == Less;
    StringMeans("10", "9");
  }

  /** A cursor that lacks the first source reads as null there, which comes after every boolean,
      number and string: nothing that starts with one of those is past it. */
  lemma IncompleteCursor(counts: seq<Bucket>, sources: seq<Source>, size: nat, cursor: map<string, Value>)
    requires sources != [] && sources[0].name !in cursor && Shown(counts, sources)
    requires forall b | b in counts :: |b.key| == |sources| && !b.key[0].OtherKey?
    ensures PageOf(counts, sources, size, Some(cursor)) == Page([], None)
  {
    hide KeyOrder;
    var at := CursorTerms(sources, cursor);
    forall b | b in counts ensures !Beyond(b.key, Some(at)) {
      BeforeNull(b.key, at);
      KeyMirror(b.key, at);
    }
    NothingPast(counts, Some(at));
  }

  lemma {:induction false} NothingPast(counts: seq<Bucket>, cursor: Option<Key>)
    requires forall b | b in counts :: !Beyond(b.key, cursor)
    ensures Past(counts, cursor) == []
  {
    hide Beyond;
    if counts != [] {
      NothingPast(counts[1..], cursor);
    }
  }

  lemma BeforeNull(a: Key, b: Key)
    requires a != [] && b != [] && !a[0].OtherKey? && b[0] == OtherKey("null")
    ensures KeyOrder(a, b) == Less
  {
  }
}
