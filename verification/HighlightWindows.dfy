/** Where each highlighted fragment lies in the text, how long it is, and which of its bytes
    stand between tags. */
module HighlightWindows {
  import opened Sequences
  import opened Bytes
  import opened Highlight

  // The window

  /** A stretch of the requested size around a cluster, before it is widened to characters: it
      starts half the size before the cluster's middle, or at the start of the text where that
      is too far back, unless it would reach the end of the text; then it is the end of the text. */
  ghost predicate Around(text: seq<byte>, c: Cluster, size: nat, a: nat, b: nat) {
    var middle := (c.start + c.end) / 2;
    var start := if middle < size / 2 then 0 else middle - size / 2;
    && a <= b <= |text| && b - a == Min(size, |text|)
    && (if start + size < |text| then a == start else b == |text|)
  }

  /** The least whole characters that cover the stretch from `a` to `b`. */
  ghost predicate WidenedTo(text: seq<byte>, a: nat, b: nat, w: Span) {
    && w.start <= a <= b <= w.end <= |text| && Boundary(text, w.start) && Boundary(text, w.end)
    && (forall i :: w.start < i <= a ==> !Boundary(text, i))
    && (forall i :: b <= i < w.end ==> !Boundary(text, i))
  }

  /** The window is such a stretch, widened by no more than characters demand. */
  lemma WindowPlaced(text: seq<byte>, c: Cluster, size: nat) returns (a: nat, b: nat)
    requires c.start <= c.end <= |text|
    ensures Around(text, c, size, a, b) && WidenedTo(text, a, b, Window(text, c, size))
  {
    hide Boundary, Floor, Ceiling;
    var start := Minus((c.start + c.end) / 2, size / 2);
    b := Min(start + size, |text|);
    a := if b == |text| then Minus(|text|, size) else start;
  }

  /** No character takes more than four bytes. */
  ghost predicate ShortCharacters(text: seq<byte>) {
    forall i :: 0 <= i < |text| - 3 ==>
      Boundary(text, i) || Boundary(text, i + 1) || Boundary(text, i + 2) || Boundary(text, i + 3)
  }

  lemma NearBoundary(text: seq<byte>, i: nat) returns (j: nat)
    requires ShortCharacters(text) && i + 3 <= |text|
    ensures i <= j <= i + 3 && Boundary(text, j)
  {
    assert Boundary(text, |text|);
    hide Boundary;
    j := if i + 3 == |text| then |text|
         else if Boundary(text, i) then i
         else if Boundary(text, i + 1) then i + 1
         else if Boundary(text, i + 2) then i + 2
         else i + 3;
  }

  lemma WidenedByThree(text: seq<byte>, a: nat, b: nat, w: Span)
    requires ShortCharacters(text) && WidenedTo(text, a, b, w)
    ensures a - w.start <= 3 && w.end - b <= 3
  {
    hide Boundary, ShortCharacters;
    if a - w.start > 3 {
      var j := NearBoundary(text, a - 3);
    }
    if w.end - b > 3 {
      var j := NearBoundary(text, b);
    }
  }

  /** How long a window is: the requested size, or the text if that is shorter, and at each end
      at most the rest of a character. */
  lemma WindowSize(text: seq<byte>, c: Cluster, size: nat)
    requires c.start <= c.end <= |text| && ShortCharacters(text)
    ensures var w := Window(text, c, size);
      Min(size, |text|) <= w.end - w.start <= Min(size, |text|) + 6
  {
    hide Window, Boundary, ShortCharacters;
    var a, b := WindowPlaced(text, c, size);
    WidenedByThree(text, a, b, Window(text, c, size));
  }

  // Rendering

  lemma RenderedCons(text: seq<byte>, p: Piece, pieces: seq<Piece>, pre: seq<byte>, post: seq<byte>)
    ensures Rendered(text, [p] + pieces, pre, post)
      == Rendered(text, [p], pre, post) + Rendered(text, pieces, pre, post)
    ensures Stripped(text, [p] + pieces) == Stripped(text, [p]) + Stripped(text, pieces)
  {
    assert ([p] + pieces)[1..] == pieces && [p][1..] == [];
  }

  lemma NothingRendered(text: seq<byte>, pre: seq<byte>, post: seq<byte>)
    ensures Rendered(text, [], pre, post) == [] && Stripped(text, []) == []
  {
  }

  /** Pieces are rendered one after the other. */
  lemma {:induction false} RenderedConcat(text: seq<byte>, p: seq<Piece>, q: seq<Piece>, pre: seq<byte>,
                                          post: seq<byte>)
    ensures Rendered(text, p + q, pre, post) == Rendered(text, p, pre, post) + Rendered(text, q, pre, post)
  {
    hide Rendered;
    if p == [] {
      assert p + q == q;
      NothingRendered(text, pre, post);
    } else {
      var first, rest := p[0], p[1..];
      SplitFirst(p, q);
      RenderedCons(text, first, rest + q, pre, post);
      RenderedCons(text, first, rest, pre, post);
      RenderedConcat(text, rest, q, pre, post);
      Reassociate(Rendered(text, [first], pre, post), Rendered(text, rest, pre, post), Rendered(text, q, pre, post));
    }
  }

  /** A tagged piece stands between the opening and the closing tag, a plain one alone. */
  lemma RenderedOne(text: seq<byte>, a: nat, b: nat, pre: seq<byte>, post: seq<byte>)
    requires a <= b <= |text|
    ensures Rendered(text, [Plain(a, b)], pre, post) == text[a..b]
    ensures Rendered(text, [Tagged(a, b)], pre, post) == pre + text[a..b] + post
  {
    assert [Plain(a, b)][1..] == [] && [Tagged(a, b)][1..] == [];
  }

  lemma PlainOne(text: seq<byte>, p: Piece)
    ensures Rendered(text, [p], [], []) == Stripped(text, [p])
  {
    assert [p][1..] == [];
  }

  /** Without tags a fragment is rendered as what it strips to. */
  lemma {:induction false} RenderedPlain(text: seq<byte>, pieces: seq<Piece>)
    ensures Rendered(text, pieces, [], []) == Stripped(text, pieces)
  {
    hide Rendered, Stripped;
    if pieces == [] {
      NothingRendered(text, [], []);
    } else {
      RenderedPlain(text, pieces[1..]);
      PlainOne(text, pieces[0]);
      SplitFirst(pieces, []);
      RenderedCons(text, pieces[0], pieces[1..], [], []);
    }
  }

  // Fragments

  /** Fragment `k` shows the window around cluster `k`, and nothing else of the text. */
  ghost predicate Shows(text: seq<byte>, c: Cluster, size: nat, fragment: seq<byte>, pre: seq<byte>, post: seq<byte>,
                        pieces: seq<Piece>, w: Span) {
    && fragment == Rendered(text, pieces, pre, post)
    && w.start <= w.end <= |text| && Stripped(text, pieces) == text[w.start..w.end]
    && exists a: nat, b: nat :: Around(text, c, size, a, b) && WidenedTo(text, a, b, w)
  }

  lemma FragmentPlaced(text: seq<byte>, spans: seq<Span>, size: nat, max: nat, pre: seq<byte>, post: seq<byte>, k: nat)
    returns (pieces: seq<Piece>, w: Span)
    requires AllInText(text, spans) && k < max && k < |Clusters(spans, size)|
    ensures k < |Fragments(text, spans, size, max, pre, post)|
    ensures Shows(text, Clusters(spans, size)[k], size, Fragments(text, spans, size, max, pre, post)[k], pre, post,
                  pieces, w)
    ensures ShortCharacters(text) ==> Min(size, |text|) <= |Stripped(text, pieces)| <= Min(size, |text|) + 6
  {
    hide Fragments, Clusters, Rendered, FragmentOf, Stripped, Window, Around, WidenedTo, AllInText, ShortCharacters;
    var c := Clusters(spans, size)[k];
    FragmentAt(text, spans, size, max, pre, post, k);
    FragmentIsSlice(text, c, size);
    pieces, w := FragmentOf(text, c, size), Window(text, c, size);
    var a, b := WindowPlaced(text, c, size);
    if ShortCharacters(text) {
      WindowSize(text, c, size);
    }
  }

  /** In any UTF-8 text, a fragment without tags is as long as requested, or as the text, and at
      most six bytes longer. */
  lemma FragmentLength(chars: seq<Scalar>, spans: seq<Span>, size: nat, max: nat, k: nat)
    requires AllInText(Utf8Text(chars), spans) && k < max && k < |Clusters(spans, size)|
    ensures k < |Fragments(Utf8Text(chars), spans, size, max, [], [])|
    ensures var n := Min(size, |Utf8Text(chars)|);
      n <= |Fragments(Utf8Text(chars), spans, size, max, [], [])[k]| <= n + 6
  {
    hide Fragments, Clusters, Rendered, Stripped, AllInText, ShortCharacters, Utf8Text;
    TextHasShortCharacters(chars);
    var pieces, w := FragmentPlaced(Utf8Text(chars), spans, size, max, [], [], k);
    RenderedPlain(Utf8Text(chars), pieces);
  }

  // Tags

  /** What a span has inside the window. */
  function Part(s: Span, w: Span): Span {
    Span(Max(s.start, w.start), Min(s.end, w.end))
  }

  /** A byte of the span lies inside the window. */
  predicate Reaches(s: Span, w: Span) {
    s.start < s.end && w.start < w.end && s.start < w.end && w.start < s.end
  }

  lemma {:induction false} ClippedParts(spans: seq<Span>, w: Span, p: Span)
    ensures p in ClippedOnly(spans, w) <==> (p.start < p.end && exists s | s in spans :: Part(s, w) == p)
  {
    hide Max, Min;
    if spans != [] {
      ClippedParts(spans[1..], w, p);
      var first := Part(spans[0], w);
      assert p in ClippedOnly(spans, w)
        <==> ((p == first && p.start < p.end) || p in ClippedOnly(spans[1..], w));
      hide Part;
      SomePart(spans, w, p);
    }
  }

  lemma SomePart(spans: seq<Span>, w: Span, p: Span)
    requires spans != []
    ensures (exists s | s in spans :: Part(s, w) == p)
      <==> (Part(spans[0], w) == p || exists s | s in spans[1..] :: Part(s, w) == p)
  {
    hide Part;
    assert forall s :: s in spans <==> s == spans[0] || s in spans[1..];
    if Part(spans[0], w) == p {
      assert spans[0] in spans;
    }
  }

  /** Parts of separated spans are in order and apart, inside the window. */
  ghost predicate Apart(spans: seq<Span>, from: nat) {
    && (forall i :: 0 <= i < |spans| ==> from <= spans[i].start < spans[i].end)
    && (forall i, j :: 0 <= i < j < |spans| ==> spans[i].end < spans[j].start)
  }

  lemma SeparatedTail(text: seq<byte>, spans: seq<Span>)
    requires Separated(text, spans) && spans != []
    ensures Separated(text, spans[1..]) && InText(text, spans[0])
    ensures forall s | s in spans[1..] :: spans[0].end < s.start
  {
    hide InText;
  }

  lemma ApartCons(p: Span, spans: seq<Span>, from: nat)
    requires from <= p.start < p.end && Apart(spans, from) && forall s | s in spans :: p.end < s.start
    ensures Apart([p] + spans, from)
  {
    var all := [p] + spans;
    forall i, j | 0 <= i < j < |all| ensures all[i].end < all[j].start {
      assert all[j] == spans[j - 1] && spans[j - 1] in spans;
    }
  }

  lemma {:induction false} ClippedApart(text: seq<byte>, spans: seq<Span>, w: Span)
    requires Separated(text, spans)
    ensures Apart(ClippedOnly(spans, w), w.start)
  {
    hide Separated, Apart, InText;
    if spans == [] {
      NothingApart(w.start);
    } else {
      SeparatedTail(text, spans);
      var rest := ClippedOnly(spans[1..], w);
      ClippedApart(text, spans[1..], w);
      var p := Part(spans[0], w);
      if p.start < p.end {
        forall s | s in rest ensures p.end < s.start {
          ClippedParts(spans[1..], w, s);
        }
        ApartCons(p, rest, w.start);
        assert ClippedOnly(spans, w) == [p] + rest;
      } else {
        assert ClippedOnly(spans, w) == [] + rest == rest;
      }
    }
  }

  lemma NothingApart(from: nat)
    ensures Apart([], from)
  {
  }

  lemma ApartTail(spans: seq<Span>, from: nat)
    requires Apart(spans, from) && spans != []
    ensures from <= spans[0].start < spans[0].end && Apart(spans[1..], spans[0].end)
  {
  }

  /** A region tags spans that are apart, each of them and nothing else. */
  lemma {:induction false} RegionTagsExactly(cursor: nat, end: nat, spans: seq<Span>, p: Span)
    requires Apart(spans, cursor)
    ensures Tagged(p.start, p.end) in Region(cursor, end, spans) <==> p in spans
    decreases |spans|
  {
    hide Apart;
    if spans != [] {
      ApartTail(spans, cursor);
      RegionTagsExactly(spans[0].end, end, spans[1..], p);
      var rest := Region(spans[0].end, end, spans[1..]);
      assert Region(cursor, end, spans) == [Plain(cursor, spans[0].start), Tagged(spans[0].start, spans[0].end)] + rest;
      assert p in spans <==> p == spans[0] || p in spans[1..];
    }
  }

  lemma EmptyRegion(a: nat, end: nat, p: Span)
    ensures Tagged(p.start, p.end) in Region(a, end, [Span(a, a)]) <==> p == Span(a, a)
  {
    assert [Span(a, a)][1..] == [];
    assert Region(a, end, []) == [Plain(a, end)];
    assert Region(a, end, [Span(a, a)]) == [Plain(a, a), Tagged(a, a)] + [Plain(a, end)];
  }

  /** What the fragment of a cluster tags: of each matched span what lies in the window, nothing
      else; where nothing does, an empty tag at the start. */
  lemma TagsExactly(text: seq<byte>, c: Cluster, size: nat, p: Span)
    requires InRange(text, c) && Separated(text, c.spans)
    ensures var w := Window(text, c, size);
      Tagged(p.start, p.end) in FragmentOf(text, c, size) <==>
        if exists s | s in c.spans :: Reaches(s, w) then p.start < p.end && exists s | s in c.spans :: Part(s, w) == p
        else p == Span(w.start, w.start)
  {
    hide Window, Separated, Region, ClippedOnly, Apart;
    var w := Window(text, c, size);
    var kept := ClippedOnly(c.spans, w);
    ClippedApart(text, c.spans, w);
    ClippedParts(c.spans, w, p);
    NothingKept(c.spans, w);
    if kept == [] {
      EmptyRegion(w.start, w.end, p);
    } else {
      RegionTagsExactly(w.start, w.end, kept, p);
    }
  }

  lemma NothingKept(spans: seq<Span>, w: Span)
    ensures ClippedOnly(spans, w) != [] <==> exists s | s in spans :: Reaches(s, w)
  {
    hide ClippedOnly;
    var kept := ClippedOnly(spans, w);
    if kept != [] {
      ClippedParts(spans, w, kept[0]);
      var s :| s in spans && Part(s, w) == kept[0];
      assert Reaches(s, w);
    }
    forall s | s in spans && Reaches(s, w) ensures kept != [] {
      ClippedParts(spans, w, Part(s, w));
    }
  }

  /** With a fragment size of at least 1 every fragment tags some of what was matched. */
  lemma SomethingTagged(text: seq<byte>, c: Cluster, size: nat) returns (s: Span)
    requires InRange(text, c) && Separated(text, c.spans) && Shaped(c, size) && size >= 1
    ensures var p := Part(s, Window(text, c, size));
      s in c.spans && p.start < p.end && Tagged(p.start, p.end) in FragmentOf(text, c, size)
  {
    hide Separated, Boundary, Shaped, FragmentOf, Floor, Ceiling;
    var w := Window(text, c, size);
    s := MiddleSpan(text, c, size);
    var p := Part(s, w);
    assert Reaches(s, w);
    TagsExactly(text, c, size, p);
  }

  /** A matched span that reaches into the window. */
  lemma MiddleSpan(text: seq<byte>, c: Cluster, size: nat) returns (s: Span)
    requires InRange(text, c) && Separated(text, c.spans) && Shaped(c, size) && size >= 1
    ensures s in c.spans && Part(s, Window(text, c, size)).start < Part(s, Window(text, c, size)).end
  {
    hide Boundary, Floor, Ceiling, Separated;
    s := c.spans[0];
    assert s in c.spans;
    InsideCluster(text, c, size, s);
    if |c.spans| > 1 {
      WindowCovers(text, c, size);
    } else {
      var a, b := WindowPlaced(text, c, size);
    }
  }

  // Clusters

  lemma {:induction false} GatherFirst(c: Cluster, spans: seq<Span>, size: nat)
    ensures Gather(c, spans, size) != [] && Gather(c, spans, size)[0].start == c.start
    ensures c.spans != [] ==> Gather(c, spans, size)[0].spans != [] && Gather(c, spans, size)[0].spans[0] == c.spans[0]
    decreases |spans|
  {
    hide Joins;
    if spans != [] && Joins(c, spans[0], size) {
      GatherFirst(Joined(c, spans[0]), spans[1..], size);
    }
  }

  lemma {:induction false} GatherGreedy(c: Cluster, spans: seq<Span>, size: nat, k: nat)
    requires k + 1 < |Gather(c, spans, size)|
    ensures var next := Gather(c, spans, size)[k + 1].spans;
      next != [] && next[0].end - Gather(c, spans, size)[k].start > size
    decreases |spans|
  {
    hide Joins;
    if spans != [] {
      if Joins(c, spans[0], size) {
        GatherGreedy(Joined(c, spans[0]), spans[1..], size, k);
      } else if k > 0 {
        GatherGreedy(Opened(spans[0]), spans[1..], size, k - 1);
      } else {
        GatherFirst(Opened(spans[0]), spans[1..], size);
        NotJoined(c, spans[0], size);
      }
    }
  }

  lemma NotJoined(c: Cluster, s: Span, size: nat)
    requires !Joins(c, s, size)
    ensures s.end - c.start > size
  {
  }

  /** Each cluster takes as many spans as fit the fragment size: it fits unless it is one longer
      span, and with the first span of the next cluster it would not. */
  lemma ClustersGreedy(text: seq<byte>, spans: seq<Span>, size: nat, k: nat)
    requires Separated(text, spans) && k < |Clusters(spans, size)|
    ensures Shaped(Clusters(spans, size)[k], size)
    ensures k + 1 < |Clusters(spans, size)| ==>
      var next := Clusters(spans, size)[k + 1].spans;
      next != [] && next[0].end - Clusters(spans, size)[k].start > size
  {
    hide Gather, Shaped;
    var first := Opened(spans[0]);
    assert first.spans + spans[1..] == spans;
    OpenedShaped(spans[0], size);
    hide Separated;
    GatherShaped(text, first, spans[1..], size, k);
    if k + 1 < |Clusters(spans, size)| {
      GatherGreedy(first, spans[1..], size, k);
    }
  }

  // Characters

  type Scalar = c: int | 0 <= c < 0x11_0000

  /** A character in UTF-8. */
  function Utf8(c: Scalar): (r: seq<byte>)
    ensures 1 <= |r| <= 4
  {
    if c < 0x80 then [c]
    else if c < 0x800 then [0xc0 + c / 0x40, 0x80 + c % 0x40]
    else if c < 0x1_0000 then [0xe0 + c / 0x1000, 0x80 + c / 0x40 % 0x40, 0x80 + c % 0x40]
    else [0xf0 + c / 0x4_0000, 0x80 + c / 0x1000 % 0x40, 0x80 + c / 0x40 % 0x40, 0x80 + c % 0x40]
  }

  function Utf8Text(chars: seq<Scalar>): seq<byte> {
    if chars == [] then [] else Utf8(chars[0]) + Utf8Text(chars[1..])
  }

  lemma FirstByteOnly(c: Scalar)
    ensures !(0x80 <= Utf8(c)[0] < 0xc0)
    ensures forall i :: 0 < i < |Utf8(c)| ==> 0x80 <= Utf8(c)[i] < 0xc0
  {
  }

  /** Past the first character boundaries are those of the rest, and inside it there are none. */
  lemma BoundaryPast(c: Scalar, rest: seq<Scalar>, i: nat)
    requires i <= |Utf8(c)| + |Utf8Text(rest)|
    ensures var text := Utf8(c) + Utf8Text(rest);
      Boundary(text, i) <==> (i == 0 || (i >= |Utf8(c)| && Boundary(Utf8Text(rest), i - |Utf8(c)|)))
  {
    FirstByteOnly(c);
    if rest != [] {
      FirstByteOnly(rest[0]);
      assert Utf8Text(rest)[0] == Utf8(rest[0])[0];
    }
    hide Utf8, Utf8Text;
  }

  lemma NoText()
    ensures Utf8Text([]) == []
  {
  }

  lemma TextOfPrefix(chars: seq<Scalar>, k: nat)
    requires 0 < k <= |chars|
    ensures |Utf8Text(chars[..k])| == |Utf8(chars[0])| + |Utf8Text(chars[1..][..k - 1])|
  {
    hide Utf8;
    assert chars[..k][1..] == chars[1..][..k - 1];
  }

  /** In UTF-8 text the boundaries are exactly the offsets between characters. */
  lemma {:induction false} BoundariesBetweenCharacters(chars: seq<Scalar>, i: nat)
    requires i <= |Utf8Text(chars)|
    ensures Boundary(Utf8Text(chars), i) <==> exists k | 0 <= k <= |chars| :: |Utf8Text(chars[..k])| == i
  {
    if chars == [] {
      assert chars[..0] == [];
    } else {
      var first, rest := chars[0], chars[1..];
      BoundaryPast(first, rest, i);
      hide Boundary, Utf8;
      assert chars[..0] == [];
      if i >= |Utf8(first)| {
        BoundariesBetweenCharacters(rest, i - |Utf8(first)|);
      }
      hide Utf8Text;
      forall k | 0 < k <= |chars| ensures |Utf8Text(chars[..k])| == |Utf8(first)| + |Utf8Text(rest[..k - 1])| {
        TextOfPrefix(chars, k);
      }
      NoText();
      if i > 0 && Boundary(Utf8Text(chars), i) {
        var k :| 0 <= k <= |rest| && |Utf8Text(rest[..k])| == i - |Utf8(first)|;
        assert |Utf8Text(chars[..k + 1])| == i;
      }
      if k :| 0 < k <= |chars| && |Utf8Text(chars[..k])| == i {
        assert |Utf8Text(rest[..k - 1])| == i - |Utf8(first)|;
      }
    }
  }

  /** So every text is one of short characters. */
  lemma {:induction false} TextHasShortCharacters(chars: seq<Scalar>)
    ensures ShortCharacters(Utf8Text(chars))
  {
    if chars != [] {
      var text, first, rest := Utf8Text(chars), chars[0], chars[1..];
      TextHasShortCharacters(rest);
      hide Utf8, Boundary;
      forall i | 0 <= i < |text| - 3
        ensures Boundary(text, i) || Boundary(text, i + 1) || Boundary(text, i + 2) || Boundary(text, i + 3)
      {
        var n := |Utf8(first)|;
        assert Boundary(Utf8Text(rest), 0) by { StartIsBoundary(Utf8Text(rest)); }
        BoundaryPast(first, rest, i);
        BoundaryPast(first, rest, i + 1);
        BoundaryPast(first, rest, i + 2);
        BoundaryPast(first, rest, i + 3);
        if i >= n {
          assert 0 <= i - n < |Utf8Text(rest)| - 3;
        }
      }
    }
  }

  lemma StartIsBoundary(text: seq<byte>)
    ensures Boundary(text, 0)
  {
  }

  // An example

  /** `b` in "a b c", tagged `<b>`, three bytes around it. */
  lemma SmallFragment()
    ensures var text: seq<byte> := [0x61, 0x20, 0x62, 0x20, 0x63];
      && AllInText(text, [Span(2, 3)])
      && Fragments(text, [Span(2, 3)], 3, 5, [0x3c], [0x3e]) == [[0x20, 0x3c, 0x62, 0x3e, 0x20]]
  {
    var text: seq<byte> := [0x61, 0x20, 0x62, 0x20, 0x63];
    var c := Opened(Span(2, 3));
    assert Clusters([Span(2, 3)], 3) == [c];
    assert Window(text, c, 3) == Span(1, 4);
    hide Clusters;
    SmallPieces(c);
    assert FragmentOf(text, c, 3) == [Plain(1, 2), Tagged(2, 3)] + [Plain(3, 4)];
    hide Window, FragmentOf;
    RenderedPair(text, 1, Span(2, 3), [Plain(3, 4)], [0x3c], [0x3e]);
    RenderedLast(text, 3, 4, [0x3c], [0x3e]);
    hide Rendered;
    assert text[1..2] == [0x20] && text[2..3] == [0x62] && text[3..4] == [0x20];
    assert [0x20] + (([0x3c] + [0x62] + [0x3e]) + [0x20]) == [0x20, 0x3c, 0x62, 0x3e, 0x20];
    FragmentAt(text, [Span(2, 3)], 3, 5, [0x3c], [0x3e], 0);
    hide Fragments;
  }

  lemma SmallPieces(c: Cluster)
    requires c == Opened(Span(2, 3))
    ensures Clipped(c.spans, Span(1, 4)) == [Span(2, 3)]
    ensures Region(1, 4, [Span(2, 3)]) == [Plain(1, 2), Tagged(2, 3)] + [Plain(3, 4)]
  {
    assert [Span(2, 3)][1..] == [];
    assert ClippedOnly([], Span(1, 4)) == [];
    assert ClippedOnly([Span(2, 3)], Span(1, 4)) == [Span(2, 3)] + [];
    assert Region(3, 4, []) == [Plain(3, 4)];
  }
}
