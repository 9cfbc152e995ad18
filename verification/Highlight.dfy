/** The highlight fragmenter: token spans, clusters of spans, the window around each cluster,
    and the tagged pieces it is rendered as. Offsets are byte offsets into UTF-8 text. */
module Highlight {
  import opened Sequences
  import opened Bytes
  import opened TopN

  datatype Span = Span(start: nat, end: nat)

  /** A stretch of the text between two offsets, tagged or not. */
  datatype Piece = Plain(from: nat, to: nat) | Tagged(from: nat, to: nat)

  // Character boundaries

  /** Offset `i` does not fall inside a multi-byte character. */
  predicate Boundary(text: seq<byte>, i: nat) {
    i == 0 || i == |text| || (i < |text| && !(0x80 <= text[i] < 0xc0))
  }

  function Slice(text: seq<byte>, a: nat, b: nat): seq<byte>
    requires a <= b <= |text| && Boundary(text, a) && Boundary(text, b)
  {
    text[a..b]
  }

  /** The greatest boundary at or before an offset. */
  function Floor(text: seq<byte>, i: nat): (r: nat)
    requires i <= |text|
    ensures r <= i && Boundary(text, r)
    ensures forall b :: r < b <= i ==> !Boundary(text, b)
  {
    if i == 0 || Boundary(text, i) then i else Floor(text, i - 1)
  }

  /** The least boundary at or after an offset. */
  function Ceiling(text: seq<byte>, i: nat): (r: nat)
    requires i <= |text|
    ensures i <= r <= |text| && Boundary(text, r)
    ensures forall b :: i <= b < r ==> !Boundary(text, b)
    decreases |text| - i
  {
    if i == |text| || Boundary(text, i) then i else Ceiling(text, i + 1)
  }

  method PreviousCharBoundary(text: seq<byte>, index: nat) returns (r: nat)
    ensures r == Floor(text, Min(index, |text|))
  {
    r := Min(index, |text|);
    while r > 0 && !Boundary(text, r)
      invariant r <= |text| && Floor(text, r) == Floor(text, Min(index, |text|))
    {
      r := r - 1;
    }
  }

  method NextCharBoundary(text: seq<byte>, index: nat) returns (r: nat)
    ensures r == Ceiling(text, Min(index, |text|))
  {
    r := Min(index, |text|);
    while r < |text| && !Boundary(text, r)
      invariant r <= |text| && Ceiling(text, r) == Ceiling(text, Min(index, |text|))
    {
      r := r + 1;
    }
  }

  function Min(a: nat, b: nat): nat { if a < b then a else b }

  function Max(a: nat, b: nat): nat { if a < b then b else a }

  function Minus(a: nat, b: nat): nat { if b < a then a - b else 0 }

  // Token spans

  predicate InText(text: seq<byte>, s: Span) {
    s.start < s.end <= |text| && Boundary(text, s.start) && Boundary(text, s.end)
  }

  /** Spans of the text, in order, with something between each two. */
  ghost predicate Separated(text: seq<byte>, spans: seq<Span>) {
    && (forall i :: 0 <= i < |spans| ==> InText(text, spans[i]))
    && (forall i, j :: 0 <= i < j < |spans| ==> spans[i].end < spans[j].start)
  }

  /** The character at a boundary runs to the next boundary. */
  function NextChar(text: seq<byte>, i: nat): (r: nat)
    requires i < |text|
    ensures i < r <= |text| && Boundary(text, r)
    ensures forall b :: i < b < r ==> !Boundary(text, b)
  {
    Ceiling(text, i + 1)
  }

  /** The character at offset `i` belongs to a token. */
  ghost predicate Solid(text: seq<byte>, blank: seq<byte> -> bool, i: nat)
    requires i < |text| && Boundary(text, i)
  {
    !blank(text[i..NextChar(text, i)])
  }

  ghost predicate Within(i: nat, spans: seq<Span>) {
    exists k :: 0 <= k < |spans| && spans[k].start <= i < spans[k].end
  }

  /** The spans found before `index` are separated; an open token starts after them. */
  ghost predicate Placed(text: seq<byte>, spans: seq<Span>, open: bool, start: nat, index: nat) {
    && Separated(text, spans) && index <= |text| && Boundary(text, index)
    && (forall k :: 0 <= k < |spans| ==> spans[k].end < if open then start else index)
    && (open ==> start < index && Boundary(text, start))
  }

  /** They and the open token cover exactly the solid characters before `index`. */
  ghost predicate Scanned(text: seq<byte>, blank: seq<byte> -> bool, spans: seq<Span>, open: bool, start: nat,
                          index: nat)
    requires index <= |text|
  {
    forall i: nat :: i < index && Boundary(text, i) ==>
      (Solid(text, blank, i) <==> (Within(i, spans) || (open && start <= i)))
  }

  lemma PlacedClosed(text: seq<byte>, spans: seq<Span>, start: nat, index: nat)
    requires Placed(text, spans, true, start, index)
    ensures Separated(text, spans + [Span(start, index)])
  {
    hide Boundary;
  }

  lemma PlacedFurther(text: seq<byte>, spans: seq<Span>, open: bool, start: nat, index: nat, next: nat)
    requires index < next <= |text| && Boundary(text, next)
    ensures Placed(text, spans, open, start, index) ==> Placed(text, spans, open, start, next)
    ensures Placed(text, spans, false, start, index) ==> Placed(text, spans, true, index, next)
    ensures Placed(text, spans, true, start, index) ==> Placed(text, spans + [Span(start, index)], false, start, next)
  {
    hide Boundary, Separated;
    if Placed(text, spans, true, start, index) {
      PlacedClosed(text, spans, start, index);
    }
  }

  /** One more character, whose token is the same before it and right at it. */
  lemma ScannedFurther(text: seq<byte>, blank: seq<byte> -> bool, index: nat,
                       spans: seq<Span>, open: bool, start: nat, spans': seq<Span>, open': bool, start': nat)
    requires index < |text| && Boundary(text, index) && Scanned(text, blank, spans, open, start, index)
    requires forall i: nat :: i < index ==>
      ((Within(i, spans) || (open && start <= i)) <==> (Within(i, spans') || (open' && start' <= i)))
    requires Solid(text, blank, index) <==> (Within(index, spans') || (open' && start' <= index))
    ensures Scanned(text, blank, spans', open', start', NextChar(text, index))
  {
    hide Boundary, Within, Solid, Ceiling;
  }

  /** Splitting text into tokens; `blank` says which characters fold to nothing. */
  method TextTokenSpans(text: seq<byte>, blank: seq<byte> -> bool) returns (spans: seq<Span>)
    ensures Separated(text, spans)
    ensures forall i: nat :: i < |text| && Boundary(text, i) ==> (Solid(text, blank, i) <==> Within(i, spans))
  {
    hide Boundary, Within, Placed, Scanned, NextChar, Separated;
    StartPlaced(text, blank);
    spans := [];
    var open, start: nat := false, 0;
    var index: nat := 0;
    while index < |text|
      invariant index <= |text| && Placed(text, spans, open, start, index)
      invariant Scanned(text, blank, spans, open, start, index)
    {
      var next := NextChar(text, index);
      PlacedFacts(text, spans, open, start, index);
      NotWithin(spans, index);
      PlacedFurther(text, spans, open, start, index, next);
      if blank(text[index..next]) {
        if open {
          WithinSnoc(spans, Span(start, index));
          ScannedFurther(text, blank, index, spans, true, start, spans + [Span(start, index)], false, start);
          spans := spans + [Span(start, index)];
          open := false;
        } else {
          ScannedFurther(text, blank, index, spans, false, start, spans, false, start);
        }
      } else if !open {
        ScannedFurther(text, blank, index, spans, false, start, spans, true, index);
        open, start := true, index;
      } else {
        ScannedFurther(text, blank, index, spans, true, start, spans, true, start);
      }
      index := next;
    }
    PlacedFacts(text, spans, open, start, index);
    if open {
      PlacedClosed(text, spans, start, |text|);
      WithinSnoc(spans, Span(start, |text|));
      ScannedClosed(text, blank, spans, start);
      spans := spans + [Span(start, |text|)];
    } else {
      ScannedWhole(text, blank, spans, start);
    }
  }

  lemma PlacedFacts(text: seq<byte>, spans: seq<Span>, open: bool, start: nat, index: nat)
    requires Placed(text, spans, open, start, index)
    ensures Separated(text, spans) && Boundary(text, index) && (open ==> start < index)
    ensures forall k :: 0 <= k < |spans| ==> spans[k].end <= index
  {
  }

  lemma StartPlaced(text: seq<byte>, blank: seq<byte> -> bool)
    ensures Placed(text, [], false, 0, 0) && Scanned(text, blank, [], false, 0, 0)
  {
  }

  lemma ScannedClosed(text: seq<byte>, blank: seq<byte> -> bool, spans: seq<Span>, start: nat)
    requires Scanned(text, blank, spans, true, start, |text|)
    requires forall i: nat :: Within(i, spans + [Span(start, |text|)]) <==> (Within(i, spans) || start <= i < |text|)
    ensures forall i: nat :: i < |text| && Boundary(text, i) ==>
      (Solid(text, blank, i) <==> Within(i, spans + [Span(start, |text|)]))
  {
    hide Boundary, Within, Solid;
  }

  lemma ScannedWhole(text: seq<byte>, blank: seq<byte> -> bool, spans: seq<Span>, start: nat)
    requires Scanned(text, blank, spans, false, start, |text|)
    ensures forall i: nat :: i < |text| && Boundary(text, i) ==> (Solid(text, blank, i) <==> Within(i, spans))
  {
    hide Boundary, Within, Solid;
  }

  lemma NotWithin(spans: seq<Span>, i: nat)
    requires forall k :: 0 <= k < |spans| ==> spans[k].end <= i
    ensures !Within(i, spans)
  {
  }

  lemma WithinSnoc(spans: seq<Span>, s: Span)
    ensures forall i: nat :: Within(i, spans + [s]) <==> (Within(i, spans) || s.start <= i < s.end)
  {
    forall i: nat ensures Within(i, spans + [s]) <==> (Within(i, spans) || s.start <= i < s.end) {
      var all := spans + [s];
      if Within(i, spans) {
        var k :| 0 <= k < |spans| && spans[k].start <= i < spans[k].end;
        assert all[k].start <= i < all[k].end;
      }
      if s.start <= i < s.end {
        assert all[|spans|].start <= i < all[|spans|].end;
      }
    }
  }

  /** A list of spans sorted and without repeats. */
  ghost predicate Ascending(spans: seq<Span>) {
    forall i, j :: 0 <= i < j < |spans| ==>
      spans[i].start < spans[j].start || (spans[i].start == spans[j].start && spans[i].end < spans[j].end)
  }

  /** Whatever tokens a query picks, sorted and deduplicated, are separated spans. */
  lemma PickedTokensSeparated(text: seq<byte>, tokens: seq<Span>, picked: seq<Span>)
    requires Separated(text, tokens) && Ascending(picked) && forall s :: s in picked ==> s in tokens
    ensures Separated(text, picked)
  {
    forall i | 0 <= i < |picked| ensures InText(text, picked[i]) {
      assert picked[i] in tokens;
    }
    forall i, j | 0 <= i < j < |picked| ensures picked[i].end < picked[j].start {
      assert picked[i] in tokens && picked[j] in tokens;
      var p :| 0 <= p < |tokens| && tokens[p] == picked[i];
      var q :| 0 <= q < |tokens| && tokens[q] == picked[j];
      assert p != q;
    }
  }

  // Clusters

  datatype Cluster = Cluster(spans: seq<Span>, start: nat, end: nat)

  /** Whether a span goes with the cluster being gathered. */
  predicate Joins(c: Cluster, s: Span, size: nat) {
    s.start <= c.end || Minus(s.end, c.start) <= size
  }

  function Opened(s: Span): Cluster {
    Cluster([s], s.start, s.end)
  }

  function Joined(c: Cluster, s: Span): Cluster {
    Cluster(c.spans + [s], c.start, Max(c.end, s.end))
  }

  /** The clusters still to come, with one being gathered. */
  function Gather(c: Cluster, spans: seq<Span>, size: nat): seq<Cluster>
    decreases |spans|
  {
    if spans == [] then [c]
    else if Joins(c, spans[0], size) then Gather(Joined(c, spans[0]), spans[1..], size)
    else [c] + Gather(Opened(spans[0]), spans[1..], size)
  }

  function Clusters(spans: seq<Span>, size: nat): seq<Cluster> {
    if spans == [] then [] else Gather(Opened(spans[0]), spans[1..], size)
  }

  // The window around a cluster

  /** Centred on the cluster, of the requested size, moved back when it reaches the end of the
      text, and widened to whole characters. */
  function Window(text: seq<byte>, c: Cluster, size: nat): (w: Span)
    requires c.start <= c.end <= |text|
    ensures w.start <= w.end <= |text| && Boundary(text, w.start) && Boundary(text, w.end)
  {
    var start := Minus((c.start + c.end) / 2, size / 2);
    var end := Min(start + size, |text|);
    Span(Floor(text, if end == |text| then Minus(|text|, size) else start), Ceiling(text, end))
  }

  /** A cluster no longer than the fragment size lies inside its window. */
  lemma WindowCovers(text: seq<byte>, c: Cluster, size: nat)
    requires c.start <= c.end <= |text| && c.end - c.start <= size
    ensures var w := Window(text, c, size);
      w.start <= c.start && c.end <= w.end
  {
    hide Floor, Ceiling;
    var start := Minus((c.start + c.end) / 2, size / 2);
    assert start <= c.start && c.end <= start + size;
  }

  // Rendering

  /** The part of each span that falls inside the window; a window without any gets an empty
      span at its start. */
  function ClippedOnly(spans: seq<Span>, w: Span): seq<Span> {
    if spans == [] then []
    else
      var s := Span(Max(spans[0].start, w.start), Min(spans[0].end, w.end));
      (if s.start < s.end then [s] else []) + ClippedOnly(spans[1..], w)
  }

  function Clipped(spans: seq<Span>, w: Span): seq<Span> {
    var kept := ClippedOnly(spans, w);
    if kept == [] then [Span(w.start, w.start)] else kept
  }

  function Region(cursor: nat, end: nat, spans: seq<Span>): seq<Piece>
    decreases |spans|
  {
    if spans == [] then [Plain(cursor, end)]
    else if spans[0].start < cursor then Region(cursor, end, spans[1..])
    else [Plain(cursor, spans[0].start), Tagged(spans[0].start, spans[0].end)] + Region(spans[0].end, end, spans[1..])
  }

  function FragmentOf(text: seq<byte>, c: Cluster, size: nat): seq<Piece>
    requires c.start <= c.end <= |text|
  {
    var w := Window(text, c, size);
    Region(w.start, w.end, Clipped(c.spans, w))
  }

  /** The pieces one after the other, each a slice on character boundaries. */
  ghost predicate Cut(text: seq<byte>, pieces: seq<Piece>, a: nat, b: nat)
    decreases pieces
  {
    if pieces == [] then a == b
    else
      && pieces[0].from == a <= pieces[0].to <= |text| && Boundary(text, a) && Boundary(text, pieces[0].to)
      && Cut(text, pieces[1..], pieces[0].to, b)
  }

  /** The fragment without its tags. */
  function Stripped(text: seq<byte>, pieces: seq<Piece>): seq<byte> {
    if pieces == [] then []
    else
      var p := pieces[0];
      (if p.from <= p.to <= |text| then text[p.from..p.to] else []) + Stripped(text, pieces[1..])
  }

  lemma {:induction false} CutIsSlice(text: seq<byte>, pieces: seq<Piece>, a: nat, b: nat)
    requires Cut(text, pieces, a, b) && a <= |text|
    ensures a <= b <= |text| && Stripped(text, pieces) == text[a..b]
  {
    hide Boundary;
    if pieces != [] {
      CutIsSlice(text, pieces[1..], pieces[0].to, b);
      SlicesJoin(text, a, pieces[0].to, b);
    }
  }

  lemma SlicesJoin(text: seq<byte>, a: nat, m: nat, b: nat)
    requires a <= m <= b <= |text|
    ensures text[a..m] + text[m..b] == text[a..b]
  {
  }

  /** Spans that can be rendered in a region ending at `end`. */
  ghost predicate Fits(text: seq<byte>, spans: seq<Span>, end: nat) {
    forall i :: 0 <= i < |spans| ==>
      spans[i].start <= spans[i].end <= end && Boundary(text, spans[i].start) && Boundary(text, spans[i].end)
  }

  lemma {:induction false} RegionCuts(text: seq<byte>, cursor: nat, end: nat, spans: seq<Span>)
    requires cursor <= end <= |text| && Boundary(text, cursor) && Boundary(text, end) && Fits(text, spans, end)
    ensures Cut(text, Region(cursor, end, spans), cursor, end)
    decreases |spans|
  {
    hide Boundary;
    if spans != [] {
      if spans[0].start < cursor {
        RegionCuts(text, cursor, end, spans[1..]);
      } else {
        RegionCuts(text, spans[0].end, end, spans[1..]);
        CutCons(text, Tagged(spans[0].start, spans[0].end), Region(spans[0].end, end, spans[1..]), end);
        CutCons(text, Plain(cursor, spans[0].start),
                [Tagged(spans[0].start, spans[0].end)] + Region(spans[0].end, end, spans[1..]), end);
      }
    } else {
      assert Region(cursor, end, spans)[1..] == [];
    }
  }

  lemma CutCons(text: seq<byte>, p: Piece, pieces: seq<Piece>, b: nat)
    requires p.from <= p.to <= |text| && Boundary(text, p.from) && Boundary(text, p.to) && Cut(text, pieces, p.to, b)
    ensures Cut(text, [p] + pieces, p.from, b)
  {
    assert ([p] + pieces)[1..] == pieces;
  }

  lemma FitsConcat(text: seq<byte>, a: seq<Span>, b: seq<Span>, end: nat)
    requires Fits(text, a, end) && Fits(text, b, end)
    ensures Fits(text, a + b, end)
  {
  }

  lemma {:induction false} ClippedFits(text: seq<byte>, spans: seq<Span>, w: Span)
    requires forall s :: s in spans ==> InText(text, s)
    requires w.start <= w.end <= |text| && Boundary(text, w.start) && Boundary(text, w.end)
    ensures Fits(text, ClippedOnly(spans, w), w.end)
  {
    hide Boundary;
    if spans != [] {
      ClippedFits(text, spans[1..], w);
      assert InText(text, spans[0]);
      var s := Span(Max(spans[0].start, w.start), Min(spans[0].end, w.end));
      FitsConcat(text, if s.start < s.end then [s] else [], ClippedOnly(spans[1..], w), w.end);
    }
  }

  /** Stripped of its tags, a fragment is the slice of the text its window covers; every slice
      it is assembled from starts and ends between characters. */
  lemma FragmentIsSlice(text: seq<byte>, c: Cluster, size: nat)
    requires c.start <= c.end <= |text| && forall s :: s in c.spans ==> InText(text, s)
    ensures var w, pieces := Window(text, c, size), FragmentOf(text, c, size);
      && Cut(text, pieces, w.start, w.end)
      && Stripped(text, pieces) == text[w.start..w.end]
  {
    hide Window, Boundary, Cut, Region;
    var w := Window(text, c, size);
    ClippedFits(text, c.spans, w);
    RegionCuts(text, w.start, w.end, Clipped(c.spans, w));
    CutIsSlice(text, FragmentOf(text, c, size), w.start, w.end);
  }

  // The renderers as they run

  /** A piece with its tags. */
  function Rendered(text: seq<byte>, pieces: seq<Piece>, pre: seq<byte>, post: seq<byte>): seq<byte> {
    if pieces == [] then []
    else
      var p := pieces[0];
      var bytes := if p.from <= p.to <= |text| then text[p.from..p.to] else [];
      (if p.Tagged? then pre + bytes + post else bytes) + Rendered(text, pieces[1..], pre, post)
  }

  method RenderRegion(text: seq<byte>, start: nat, end: nat, spans: seq<Span>, pre: seq<byte>, post: seq<byte>)
    returns (fragment: seq<byte>)
    requires start <= end <= |text| && Boundary(text, start) && Boundary(text, end) && Fits(text, spans, end)
    ensures fragment == Rendered(text, Region(start, end, spans), pre, post)
  {
    hide Boundary, Fits;
    fragment := [];
    var cursor: nat := start;
    for i := 0 to |spans|
      invariant cursor <= end && Boundary(text, cursor)
      invariant fragment + Rendered(text, Region(cursor, end, spans[i..]), pre, post)
             == Rendered(text, Region(start, end, spans), pre, post)
    {
      var s := spans[i];
      assert spans[i..][1..] == spans[i + 1..];
      if s.start < cursor {
        continue;
      }
      FitsAt(text, spans, end, i);
      RenderedPair(text, cursor, s, Region(s.end, end, spans[i + 1..]), pre, post);
      ghost var rest := Rendered(text, Region(s.end, end, spans[i + 1..]), pre, post);
      Regroup(fragment, Slice(text, cursor, s.start), pre, Slice(text, s.start, s.end), post, rest);
      fragment := fragment + Slice(text, cursor, s.start);
      fragment := fragment + pre;
      fragment := fragment + Slice(text, s.start, s.end);
      fragment := fragment + post;
      cursor := s.end;
    }
    RenderedLast(text, cursor, end, pre, post);
    fragment := fragment + Slice(text, cursor, end);
  }

  lemma FitsAt(text: seq<byte>, spans: seq<Span>, end: nat, i: nat)
    requires Fits(text, spans, end) && i < |spans|
    ensures spans[i].start <= spans[i].end <= end && Boundary(text, spans[i].start) && Boundary(text, spans[i].end)
  {
  }

  lemma Regroup(f: seq<byte>, a: seq<byte>, pre: seq<byte>, b: seq<byte>, post: seq<byte>, rest: seq<byte>)
    ensures f + (a + ((pre + b + post) + rest)) == f + a + pre + b + post + rest
  {
  }

  lemma RenderedPair(text: seq<byte>, cursor: nat, s: Span, rest: seq<Piece>, pre: seq<byte>, post: seq<byte>)
    requires cursor <= s.start <= s.end <= |text|
    ensures Rendered(text, [Plain(cursor, s.start), Tagged(s.start, s.end)] + rest, pre, post) ==
      text[cursor..s.start] + ((pre + text[s.start..s.end] + post) + Rendered(text, rest, pre, post))
  {
    var pieces := [Plain(cursor, s.start), Tagged(s.start, s.end)] + rest;
    assert pieces[1..] == [Tagged(s.start, s.end)] + rest && pieces[1..][1..] == rest;
  }

  lemma RenderedLast(text: seq<byte>, cursor: nat, end: nat, pre: seq<byte>, post: seq<byte>)
    requires cursor <= end <= |text|
    ensures Rendered(text, [Plain(cursor, end)], pre, post) == text[cursor..end]
  {
    assert [Plain(cursor, end)][1..] == [];
  }

  ghost predicate InRange(text: seq<byte>, c: Cluster) {
    c.start <= c.end <= |text| && forall s :: s in c.spans ==> InText(text, s)
  }

  method FindWindow(text: seq<byte>, c: Cluster, size: nat) returns (w: Span)
    requires c.start <= c.end <= |text|
    ensures w == Window(text, c, size)
  {
    hide Boundary, Floor, Ceiling;
    var fragmentStart := Minus((c.start + c.end) / 2, size / 2);
    var fragmentEnd := Min(fragmentStart + size, |text|);
    if fragmentEnd == |text| {
      fragmentStart := Minus(|text|, size);
    }
    fragmentStart := PreviousCharBoundary(text, fragmentStart);
    fragmentEnd := NextCharBoundary(text, fragmentEnd);
    w := Span(fragmentStart, fragmentEnd);
  }

  lemma ClippedStep(spans: seq<Span>, w: Span, i: nat)
    requires i < |spans|
    ensures var s := Span(Max(spans[i].start, w.start), Min(spans[i].end, w.end));
      ClippedOnly(spans[i..], w) == (if s.start < s.end then [s] else []) + ClippedOnly(spans[i + 1..], w)
  {
    assert spans[i..][1..] == spans[i + 1..];
  }

  lemma NothingClipped(w: Span)
    ensures ClippedOnly([], w) == []
  {
  }

  method ClipSpans(spans: seq<Span>, w: Span) returns (kept: seq<Span>)
    ensures kept == Clipped(spans, w)
  {
    hide ClippedOnly, Max, Min;
    kept := [];
    assert spans[0..] == spans;
    for i := 0 to |spans|
      invariant kept + ClippedOnly(spans[i..], w) == ClippedOnly(spans, w)
    {
      var clipped := Span(Max(spans[i].start, w.start), Min(spans[i].end, w.end));
      ClippedStep(spans, w, i);
      if clipped.start < clipped.end {
        Reassociate(kept, [clipped], ClippedOnly(spans[i + 1..], w));
        kept := kept + [clipped];
      }
    }
    NothingClipped(w);
    assert spans[|spans|..] == [] && kept == ClippedOnly(spans, w);
    if kept == [] {
      kept := [Span(w.start, w.start)];
    }
  }

  method RenderClusterFragment(text: seq<byte>, c: Cluster, size: nat, pre: seq<byte>, post: seq<byte>)
    returns (fragment: seq<byte>)
    requires InRange(text, c)
    ensures fragment == Rendered(text, FragmentOf(text, c, size), pre, post)
  {
    hide Boundary, Rendered, Region, Fits, Window, ClippedOnly;
    var w := FindWindow(text, c, size);
    var kept := ClipSpans(c.spans, w);
    ClippedFits(text, c.spans, w);
    EmptyFits(text, w.start, w.end);
    fragment := RenderRegion(text, w.start, w.end, kept, pre, post);
  }

  lemma EmptyFits(text: seq<byte>, a: nat, end: nat)
    requires a <= end && Boundary(text, a)
    ensures Fits(text, [Span(a, a)], end)
  {
  }

  function RenderAll(text: seq<byte>, clusters: seq<Cluster>, size: nat, pre: seq<byte>,
                     post: seq<byte>): seq<seq<byte>>
    requires forall c :: c in clusters ==> c.start <= c.end <= |text|
  {
    if clusters == [] then []
    else
      [Rendered(text, FragmentOf(text, clusters[0], size), pre, post)]
      + RenderAll(text, clusters[1..], size, pre, post)
  }

  ghost predicate AllInText(text: seq<byte>, spans: seq<Span>) {
    forall s :: s in spans ==> InText(text, s)
  }

  ghost predicate AllInRange(text: seq<byte>, clusters: seq<Cluster>) {
    forall c :: c in clusters ==> InRange(text, c)
  }

  lemma OpenedInRange(text: seq<byte>, s: Span)
    requires InText(text, s)
    ensures InRange(text, Opened(s))
  {
  }

  lemma JoinedInRange(text: seq<byte>, c: Cluster, s: Span)
    requires InText(text, s) && InRange(text, c)
    ensures InRange(text, Joined(c, s))
  {
  }

  lemma {:induction false} GatherInRange(text: seq<byte>, c: Cluster, spans: seq<Span>, size: nat)
    requires InRange(text, c) && AllInText(text, spans)
    ensures AllInRange(text, Gather(c, spans, size))
    decreases |spans|
  {
    hide InRange, InText, Joins;
    if spans != [] {
      assert spans[0] in spans && AllInText(text, spans[1..]);
      if Joins(c, spans[0], size) {
        JoinedInRange(text, c, spans[0]);
        GatherInRange(text, Joined(c, spans[0]), spans[1..], size);
      } else {
        OpenedInRange(text, spans[0]);
        GatherInRange(text, Opened(spans[0]), spans[1..], size);
      }
    }
  }

  lemma ClustersInRange(text: seq<byte>, spans: seq<Span>, size: nat, max: nat)
    requires AllInText(text, spans)
    ensures AllInRange(text, Clusters(spans, size)) && AllInRange(text, Take(Clusters(spans, size), max))
  {
    hide InRange, InText;
    if spans != [] {
      OpenedInRange(text, spans[0]);
      GatherInRange(text, Opened(spans[0]), spans[1..], size);
    }
  }

  lemma RangeBounds(text: seq<byte>, clusters: seq<Cluster>)
    requires AllInRange(text, clusters)
    ensures forall c :: c in clusters ==> c.start <= c.end <= |text|
  {
  }

  /** Rendering the first `max` clusters, one fragment each. */
  ghost function Fragments(text: seq<byte>, spans: seq<Span>, size: nat, max: nat, pre: seq<byte>,
                           post: seq<byte>): seq<seq<byte>>
    requires AllInText(text, spans)
  {
    ClustersInRange(text, spans, size, max);
    RangeBounds(text, Take(Clusters(spans, size), max));
    RenderAll(text, Take(Clusters(spans, size), max), size, pre, post)
  }

  /** What the loop still has to render. */
  ghost function Due(text: seq<byte>, c: Cluster, spans: seq<Span>, size: nat, max: nat, pre: seq<byte>,
                     post: seq<byte>): seq<seq<byte>>
    requires InRange(text, c) && AllInText(text, spans)
  {
    GatherInRange(text, c, spans, size);
    RangeBounds(text, Gather(c, spans, size));
    RenderAll(text, Take(Gather(c, spans, size), max), size, pre, post)
  }

  lemma DueStep(text: seq<byte>, c: Cluster, spans: seq<Span>, size: nat, max: nat, pre: seq<byte>, post: seq<byte>)
    requires InRange(text, c) && AllInText(text, spans) && max > 0
    ensures spans == [] ==>
      Due(text, c, spans, size, max, pre, post) == [Rendered(text, FragmentOf(text, c, size), pre, post)]
    ensures spans != [] ==>
      AllInText(text, spans[1..]) && InRange(text, Joined(c, spans[0])) && InRange(text, Opened(spans[0]))
    ensures (spans != [] && Joins(c, spans[0], size)) ==>
      Due(text, c, spans, size, max, pre, post) == Due(text, Joined(c, spans[0]), spans[1..], size, max, pre, post)
    ensures (spans != [] && !Joins(c, spans[0], size)) ==>
      Due(text, c, spans, size, max, pre, post) ==
        [Rendered(text, FragmentOf(text, c, size), pre, post)]
        + Due(text, Opened(spans[0]), spans[1..], size, max - 1, pre, post)
  {
    hide Rendered, FragmentOf, InText, Joins;
    if spans == [] {
      assert Take([c], max) == [c] && [c][1..] == [];
      assert RenderAll(text, [c], size, pre, post)
          == [Rendered(text, FragmentOf(text, c, size), pre, post)] + RenderAll(text, [], size, pre, post);
    } else {
      assert spans[0] in spans && AllInText(text, spans[1..]);
      JoinedInRange(text, c, spans[0]);
      OpenedInRange(text, spans[0]);
      if !Joins(c, spans[0], size) {
        var more := Gather(Opened(spans[0]), spans[1..], size);
        TakeCons(c, more, max);
        assert ([c] + Take(more, max - 1))[1..] == Take(more, max - 1);
      }
    }
  }

  method BuildHighlightFragments(text: seq<byte>, spans: seq<Span>, size: nat, max: nat, pre: seq<byte>,
                                 post: seq<byte>)
    returns (fragments: seq<seq<byte>>)
    requires AllInText(text, spans)
    ensures fragments == Fragments(text, spans, size, max, pre, post)
  {
    hide Rendered, FragmentOf, InText, InRange, Due, Joins, Joined, Opened, AllInText, Fragments;
    fragments := [];
    if text == [] || spans == [] || max == 0 {
      NothingToRender(text, spans, size, max, pre, post);
      return;
    }
    FirstCluster(text, spans, size, max, pre, post);
    var c := Opened(spans[0]);
    for i := 1 to |spans|
      invariant InRange(text, c) && AllInText(text, spans[i..]) && |fragments| < max
      invariant fragments + Due(text, c, spans[i..], size, max - |fragments|, pre, post)
             == Fragments(text, spans, size, max, pre, post)
    {
      var s := spans[i];
      assert spans[i..][1..] == spans[i + 1..] && spans[i..][0] == s;
      DueStep(text, c, spans[i..], size, max - |fragments|, pre, post);
      if Joins(c, s, size) {
        c := Joined(c, s);
        continue;
      }
      var fragment := RenderClusterFragment(text, c, size, pre, post);
      fragments := fragments + [fragment];
      if |fragments| >= max {
        DueNothing(text, Opened(s), spans[i + 1..], size, pre, post);
        return;
      }
      c := Opened(s);
    }
    DueStep(text, c, spans[|spans|..], size, max - |fragments|, pre, post);
    var fragment := RenderClusterFragment(text, c, size, pre, post);
    fragments := fragments + [fragment];
  }

  lemma DueNothing(text: seq<byte>, c: Cluster, spans: seq<Span>, size: nat, pre: seq<byte>, post: seq<byte>)
    requires InRange(text, c) && AllInText(text, spans)
    ensures Due(text, c, spans, size, 0, pre, post) == []
  {
    hide InRange, AllInText;
  }

  lemma NothingToRender(text: seq<byte>, spans: seq<Span>, size: nat, max: nat, pre: seq<byte>, post: seq<byte>)
    requires AllInText(text, spans) && (text == [] || spans == [] || max == 0)
    ensures Fragments(text, spans, size, max, pre, post) == []
  {
    if spans != [] {
      assert InText(text, spans[0]);
    }
  }

  lemma FirstCluster(text: seq<byte>, spans: seq<Span>, size: nat, max: nat, pre: seq<byte>, post: seq<byte>)
    requires AllInText(text, spans) && spans != []
    ensures InRange(text, Opened(spans[0])) && AllInText(text, spans[1..])
    ensures Due(text, Opened(spans[0]), spans[1..], size, max, pre, post)
         == Fragments(text, spans, size, max, pre, post)
  {
    assert spans[0] in spans;
    OpenedInRange(text, spans[0]);
  }

  // What is tagged

  function Flatten(clusters: seq<Cluster>): seq<Span> {
    if clusters == [] then [] else clusters[0].spans + Flatten(clusters[1..])
  }

  /** The clusters are the spans cut into consecutive groups. */
  lemma {:induction false} GatherPartitions(c: Cluster, spans: seq<Span>, size: nat)
    ensures Flatten(Gather(c, spans, size)) == c.spans + spans
    decreases |spans|
  {
    hide Joins;
    if spans == [] {
      assert [c][1..] == [];
    } else if Joins(c, spans[0], size) {
      GatherPartitions(Joined(c, spans[0]), spans[1..], size);
    } else {
      GatherPartitions(Opened(spans[0]), spans[1..], size);
      assert ([c] + Gather(Opened(spans[0]), spans[1..], size))[1..] == Gather(Opened(spans[0]), spans[1..], size);
    }
  }

  lemma ClustersPartition(spans: seq<Span>, size: nat)
    ensures Flatten(Clusters(spans, size)) == spans
  {
    if spans != [] {
      GatherPartitions(Opened(spans[0]), spans[1..], size);
    }
  }

  /** A cluster of separated spans reaches from its first span to its last, and fits the
      fragment size unless it is a single longer span. */
  ghost predicate Shaped(c: Cluster, size: nat) {
    && c.spans != [] && c.start == c.spans[0].start && c.end == c.spans[|c.spans| - 1].end
    && (|c.spans| == 1 || c.end - c.start <= size)
  }

  lemma SeparatedSlice(text: seq<byte>, spans: seq<Span>, lo: nat, hi: nat)
    requires Separated(text, spans) && lo <= hi <= |spans|
    ensures Separated(text, spans[lo..hi])
  {
    hide InText;
  }

  lemma SeparatedAcross(text: seq<byte>, spans: seq<Span>, k: nat, s: Span, t: Span)
    requires Separated(text, spans) && k <= |spans| && s in spans[..k] && t in spans[k..]
    ensures s.end < t.start
  {
    hide InText;
    var i :| 0 <= i < k && spans[i] == s;
    var j :| k <= j < |spans| && spans[j] == t;
  }

  lemma SeparatedPrefix(text: seq<byte>, a: seq<Span>, b: seq<Span>)
    requires Separated(text, a + b)
    ensures Separated(text, a) && Separated(text, b)
    ensures forall s, t :: s in a && t in b ==> s.end < t.start
  {
    hide Separated;
    var all := a + b;
    assert all[0..|a|] == a && all[|a|..|all|] == b && all[..|a|] == a && all[|a|..] == b;
    SeparatedSlice(text, all, 0, |a|);
    SeparatedSlice(text, all, |a|, |all|);
    forall s, t | s in a && t in b ensures s.end < t.start {
      SeparatedAcross(text, all, |a|, s, t);
    }
  }

  lemma JoinShaped(text: seq<byte>, c: Cluster, s: Span, size: nat)
    requires Shaped(c, size) && Separated(text, c.spans + [s]) && Joins(c, s, size)
    ensures Shaped(Joined(c, s), size)
  {
    var all := c.spans + [s];
    assert all[|c.spans| - 1].end < all[|c.spans|].start;
    assert InText(text, all[|c.spans|]) && InText(text, all[0]);
    assert all[0] == c.spans[0];
    assert |c.spans| > 1 ==> all[0].end < all[|c.spans| - 1].start;
  }

  lemma {:induction false} GatherMembers(c: Cluster, spans: seq<Span>, size: nat, k: nat, s: Span)
    requires k < |Gather(c, spans, size)| && s in Gather(c, spans, size)[k].spans
    ensures s in c.spans + spans
    decreases |spans|
  {
    hide Joins;
    if spans != [] {
      if Joins(c, spans[0], size) {
        GatherMembers(Joined(c, spans[0]), spans[1..], size, k, s);
        assert Joined(c, spans[0]).spans + spans[1..] == c.spans + spans;
      } else if k > 0 {
        GatherMembers(Opened(spans[0]), spans[1..], size, k - 1, s);
      }
    }
  }

  /** Clusters of separated spans are shaped, and each lies wholly after the one before. */
  lemma {:induction false} GatherShaped(text: seq<byte>, c: Cluster, spans: seq<Span>, size: nat, k: nat)
    requires Separated(text, c.spans + spans) && Shaped(c, size) && k < |Gather(c, spans, size)|
    ensures Shaped(Gather(c, spans, size)[k], size) && Separated(text, Gather(c, spans, size)[k].spans)
    decreases |spans|
  {
    hide Joins, Shaped, Separated;
    SeparatedPrefix(text, c.spans, spans);
    if spans != [] {
      if Joins(c, spans[0], size) {
        assert c.spans + spans == (c.spans + [spans[0]]) + spans[1..];
        SeparatedPrefix(text, c.spans + [spans[0]], spans[1..]);
        JoinShaped(text, c, spans[0], size);
        GatherShaped(text, Joined(c, spans[0]), spans[1..], size, k);
      } else if k > 0 {
        assert spans == [spans[0]] + spans[1..];
        OpenedShaped(spans[0], size);
        GatherShaped(text, Opened(spans[0]), spans[1..], size, k - 1);
      }
    }
  }

  lemma OpenedShaped(s: Span, size: nat)
    ensures Shaped(Opened(s), size)
  {
  }

  lemma {:induction false} GatherOrdered(text: seq<byte>, c: Cluster, spans: seq<Span>, size: nat, k: nat, l: nat,
                                         s: Span, t: Span)
    requires Separated(text, c.spans + spans) && k < l < |Gather(c, spans, size)|
    requires s in Gather(c, spans, size)[k].spans && t in Gather(c, spans, size)[l].spans
    ensures s.end < t.start
    decreases |spans|
  {
    hide Joins, Separated;
    if spans != [] {
      if Joins(c, spans[0], size) {
        assert c.spans + spans == (c.spans + [spans[0]]) + spans[1..];
        GatherOrdered(text, Joined(c, spans[0]), spans[1..], size, k, l, s, t);
      } else {
        SeparatedPrefix(text, c.spans, spans);
        assert spans == [spans[0]] + spans[1..];
        if k > 0 {
          GatherOrdered(text, Opened(spans[0]), spans[1..], size, k - 1, l - 1, s, t);
        } else {
          GatherMembers(Opened(spans[0]), spans[1..], size, l - 1, t);
        }
      }
    }
  }

  /** Inside a window that covers them, spans are not clipped. */
  lemma {:induction false} ClipNothing(spans: seq<Span>, w: Span)
    requires forall s :: s in spans ==> w.start <= s.start < s.end <= w.end
    ensures ClippedOnly(spans, w) == spans
  {
    if spans != [] {
      assert spans[0] in spans;
      ClipNothing(spans[1..], w);
    }
  }

  /** Separated spans are all tagged. */
  lemma {:induction false} RegionTags(text: seq<byte>, cursor: nat, end: nat, spans: seq<Span>, s: Span)
    requires Separated(text, spans) && s in spans && cursor <= spans[0].start
    ensures Tagged(s.start, s.end) in Region(cursor, end, spans)
    decreases |spans|
  {
    var rest := Region(spans[0].end, end, spans[1..]);
    assert Region(cursor, end, spans) == [Plain(cursor, spans[0].start), Tagged(spans[0].start, spans[0].end)] + rest;
    if s != spans[0] {
      assert s in spans[1..];
      assert spans[0].end < spans[1].start;
      RegionTags(text, spans[0].end, end, spans[1..], s);
    }
  }

  /** Only spans are tagged. */
  lemma {:induction false} RegionTagsOnly(cursor: nat, end: nat, spans: seq<Span>, p: Piece)
    requires p in Region(cursor, end, spans) && p.Tagged?
    ensures Span(p.from, p.to) in spans
    decreases |spans|
  {
    if spans != [] {
      if spans[0].start < cursor {
        RegionTagsOnly(cursor, end, spans[1..], p);
      } else if p != Tagged(spans[0].start, spans[0].end) {
        RegionTagsOnly(spans[0].end, end, spans[1..], p);
      }
    }
  }

  lemma {:induction false} ClippedInside(spans: seq<Span>, w: Span, p: Span)
    requires p in ClippedOnly(spans, w)
    ensures exists s :: s in spans && s.start <= p.start && p.end <= s.end
  {
    var s := Span(Max(spans[0].start, w.start), Min(spans[0].end, w.end));
    if p == s {
      assert spans[0] in spans && spans[0].start <= p.start && p.end <= spans[0].end;
    } else {
      ClippedInside(spans[1..], w, p);
      var t :| t in spans[1..] && t.start <= p.start && p.end <= t.end;
      assert t in spans;
    }
  }

  /** The piece and the span have a byte in common. */
  predicate Shares(p: Piece, s: Span) {
    Max(p.from, s.start) < Min(p.to, s.end)
  }

  /** Tags of one cluster's fragment touch only what that cluster matched. */
  lemma TagsOwnSpans(text: seq<byte>, c: Cluster, size: nat, p: Piece, s: Span)
    requires c.start <= c.end <= |text| && p in FragmentOf(text, c, size) && p.Tagged? && Shares(p, s)
    ensures exists t :: t in c.spans && Max(t.start, s.start) < Min(t.end, s.end)
  {
    hide Window, Region, ClippedOnly;
    var w := Window(text, c, size);
    RegionTagsOnly(w.start, w.end, Clipped(c.spans, w), p);
    ClippedInside(c.spans, w, Span(p.from, p.to));
    var t :| t in c.spans && t.start <= p.from && p.to <= t.end;
    assert Max(t.start, s.start) < Min(t.end, s.end);
  }

  lemma {:induction false} CutOrdered(text: seq<byte>, pieces: seq<Piece>, a: nat, b: nat, i: nat, j: nat)
    requires Cut(text, pieces, a, b) && i < j < |pieces|
    ensures a <= pieces[i].to <= pieces[j].from
    decreases i, j
  {
    if i > 0 {
      CutOrdered(text, pieces[1..], pieces[0].to, b, i - 1, j - 1);
    } else if j > 1 {
      CutOrdered(text, pieces[1..], pieces[0].to, b, 0, j - 1);
      CutForward(text, pieces[1..], pieces[0].to, b);
    }
  }

  lemma CutForward(text: seq<byte>, pieces: seq<Piece>, a: nat, b: nat)
    requires Cut(text, pieces, a, b) && pieces != []
    ensures a == pieces[0].from <= pieces[0].to
  {
  }

  /** The fragment's `i`-th piece is the span, tagged, and no other piece touches the span. */
  ghost predicate TaggedOnce(pieces: seq<Piece>, i: nat, s: Span) {
    && i < |pieces| && pieces[i] == Tagged(s.start, s.end)
    && forall j :: 0 <= j < |pieces| && j != i ==> !Shares(pieces[j], s)
  }

  ghost predicate TaggedIn(text: seq<byte>, c: Cluster, size: nat, s: Span) {
    c.start <= c.end <= |text| && exists i: nat :: TaggedOnce(FragmentOf(text, c, size), i, s)
  }

  ghost predicate UntaggedIn(text: seq<byte>, c: Cluster, size: nat, s: Span) {
    c.start <= c.end <= |text| && forall p :: p in FragmentOf(text, c, size) && p.Tagged? ==> !Shares(p, s)
  }

  /** In a fragment cut from the text, a piece is the only one to touch its bytes. */
  lemma OncePerCut(text: seq<byte>, pieces: seq<Piece>, a: nat, b: nat, s: Span)
    requires Cut(text, pieces, a, b) && Tagged(s.start, s.end) in pieces
    ensures exists i: nat :: TaggedOnce(pieces, i, s)
  {
    hide Cut;
    var i: nat :| i < |pieces| && pieces[i] == Tagged(s.start, s.end);
    forall j | 0 <= j < |pieces| && j != i ensures !Shares(pieces[j], s) {
      CutOrdered(text, pieces, a, b, if i < j then i else j, if i < j then j else i);
    }
    assert TaggedOnce(pieces, i, s);
  }

  lemma InsideCluster(text: seq<byte>, c: Cluster, size: nat, t: Span)
    requires Shaped(c, size) && Separated(text, c.spans) && t in c.spans
    ensures c.start <= t.start < t.end <= c.end
  {
    var i :| 0 <= i < |c.spans| && c.spans[i] == t;
    assert InText(text, c.spans[0]) && InText(text, t);
  }

  lemma FragmentUnclipped(text: seq<byte>, c: Cluster, size: nat)
    requires InRange(text, c) && Shaped(c, size) && Separated(text, c.spans) && c.end - c.start <= size
    ensures var w := Window(text, c, size);
      w.start <= c.start && FragmentOf(text, c, size) == Region(w.start, w.end, c.spans)
  {
    hide Window, Region, Boundary, Separated, Shaped, ClippedOnly;
    var w := Window(text, c, size);
    WindowCovers(text, c, size);
    forall t | t in c.spans ensures w.start <= t.start < t.end <= w.end {
      InsideCluster(text, c, size, t);
    }
    ClipNothing(c.spans, w);
    assert c.spans != [] by { ShapedFacts(c, size); }
  }

  lemma ShapedFacts(c: Cluster, size: nat)
    requires Shaped(c, size)
    ensures c.spans != [] && c.start == c.spans[0].start
    ensures forall s :: s in c.spans && s.start <= s.end && s.end - s.start <= size ==> c.end - c.start <= size
  {
  }

  lemma TaggedInOwnFragment(text: seq<byte>, c: Cluster, size: nat, s: Span)
    requires InRange(text, c) && Shaped(c, size) && Separated(text, c.spans) && s in c.spans && s.end - s.start <= size
    ensures TaggedIn(text, c, size, s)
  {
    hide Window, Region, Cut, Boundary, Stripped, FragmentOf, Separated, Shaped, TaggedOnce;
    var w := Window(text, c, size);
    ShapedFacts(c, size);
    InsideCluster(text, c, size, s);
    FragmentUnclipped(text, c, size);
    RegionTags(text, w.start, w.end, c.spans, s);
    FragmentIsSlice(text, c, size);
    OncePerCut(text, FragmentOf(text, c, size), w.start, w.end, s);
  }

  lemma UntaggedElsewhere(text: seq<byte>, c: Cluster, size: nat, s: Span)
    requires InRange(text, c) && forall t :: t in c.spans ==> t.end < s.start || s.end < t.start
    ensures UntaggedIn(text, c, size, s)
  {
    hide FragmentOf;
    forall p | p in FragmentOf(text, c, size) && p.Tagged? ensures !Shares(p, s) {
      if Shares(p, s) {
        TagsOwnSpans(text, c, size, p, s);
      }
    }
  }

  /** Every matched token no longer than the fragment size, in one of the rendered clusters,
      is tagged whole, once, in that cluster's fragment, and no other fragment tags any of it. */
  lemma MatchedTokenTaggedOnce(text: seq<byte>, spans: seq<Span>, size: nat, k: nat, s: Span)
    requires Separated(text, spans)
    requires k < |Clusters(spans, size)| && s in Clusters(spans, size)[k].spans && s.end - s.start <= size
    ensures TaggedIn(text, Clusters(spans, size)[k], size, s)
    ensures forall l :: 0 <= l < |Clusters(spans, size)| && l != k ==>
      UntaggedIn(text, Clusters(spans, size)[l], size, s)
  {
    hide Gather, Shaped, TaggedIn, UntaggedIn, InRange;
    var clusters := Clusters(spans, size);
    var first := Opened(spans[0]);
    assert first.spans + spans[1..] == spans;
    ClustersInRange(text, spans, size, 0);
    OpenedShaped(spans[0], size);
    hide Separated;
    GatherShaped(text, first, spans[1..], size, k);
    TaggedInOwnFragment(text, clusters[k], size, s);
    forall l | 0 <= l < |clusters| && l != k ensures UntaggedIn(text, clusters[l], size, s) {
      forall t | t in clusters[l].spans ensures t.end < s.start || s.end < t.start {
        if k < l {
          GatherOrdered(text, first, spans[1..], size, k, l, s, t);
        } else {
          GatherOrdered(text, first, spans[1..], size, l, k, t, s);
        }
      }
      UntaggedElsewhere(text, clusters[l], size, s);
    }
  }

  lemma {:induction false} RenderAllAt(text: seq<byte>, clusters: seq<Cluster>, size: nat, pre: seq<byte>,
                                       post: seq<byte>, k: nat)
    requires (forall c :: c in clusters ==> c.start <= c.end <= |text|) && k < |clusters|
    ensures |RenderAll(text, clusters, size, pre, post)| == |clusters|
    ensures RenderAll(text, clusters, size, pre, post)[k]
         == Rendered(text, FragmentOf(text, clusters[k], size), pre, post)
  {
    hide Rendered, FragmentOf;
    if |clusters| > 1 {
      RenderAllAt(text, clusters[1..], size, pre, post, if k > 0 then k - 1 else 0);
    }
  }

  /** Fragment `k` is the fragment of cluster `k`; there is one for each of the first `max`. */
  lemma FragmentAt(text: seq<byte>, spans: seq<Span>, size: nat, max: nat, pre: seq<byte>, post: seq<byte>, k: nat)
    requires AllInText(text, spans) && k < max && k < |Clusters(spans, size)|
    ensures InRange(text, Clusters(spans, size)[k])
    ensures var fragments := Fragments(text, spans, size, max, pre, post);
      && |fragments| == Min(max, |Clusters(spans, size)|)
      && fragments[k] == Rendered(text, FragmentOf(text, Clusters(spans, size)[k], size), pre, post)
  {
    hide Rendered, FragmentOf, Clusters, AllInText;
    ClustersInRange(text, spans, size, max);
    RangeBounds(text, Take(Clusters(spans, size), max));
    RenderAllAt(text, Take(Clusters(spans, size), max), size, pre, post, k);
  }

  /** Without a fragment size the whole text is one fragment: nothing is lost and every
      matched token is tagged once. */
  lemma WholeTextTagged(text: seq<byte>, spans: seq<Span>, s: Span)
    requires Separated(text, spans) && s in spans
    ensures Stripped(text, Region(0, |text|, spans)) == text
    ensures exists i: nat :: TaggedOnce(Region(0, |text|, spans), i, s)
  {
    hide Region, Cut, TaggedOnce, Stripped;
    RegionCuts(text, 0, |text|, spans);
    CutIsSlice(text, Region(0, |text|, spans), 0, |text|);
    RegionTags(text, 0, |text|, spans, s);
    OncePerCut(text, Region(0, |text|, spans), 0, |text|, s);
  }
}
