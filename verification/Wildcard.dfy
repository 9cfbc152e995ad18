/** The greedy wildcard matcher against the declarative meaning of `*` and `?`, and the
    tokens it is run on. */
module Wildcard {
  import opened Options

  // Meaning

  /** `*` stands for any run of characters, `?` for any one, anything else for itself. */
  predicate Wild(p: seq<char>, t: seq<char>) {
    if p == [] then t == []
    else if p[0] == '*' then exists k | 0 <= k <= |t| :: Wild(p[1..], t[k..])
    else t != [] && (p[0] == '?' || p[0] == t[0]) && Wild(p[1..], t[1..])
  }

  predicate AllStars(p: seq<char>) {
    p == [] || (p[0] == '*' && AllStars(p[1..]))
  }

  /** The matcher's loop from a given state; `star` is -1 until a star has been met. */
  predicate Run(p: seq<char>, t: seq<char>, pi: nat, ti: nat, star: int, starTi: nat)
    requires pi <= |p| && starTi <= ti <= |t| && -1 <= star < |p|
    decreases |t| - starTi, |p| - pi
  {
    if ti == |t| then AllStars(p[pi..])
    else if pi < |p| && (p[pi] == '?' || p[pi] == t[ti]) then Run(p, t, pi + 1, ti + 1, star, starTi)
    else if pi < |p| && p[pi] == '*' then Run(p, t, pi + 1, ti, pi, ti)
    else if star >= 0 then Run(p, t, star + 1, starTi + 1, star, starTi + 1)
    else false
  }

  method WildcardPatternMatches(pattern: seq<char>, text: seq<char>) returns (r: bool)
    ensures r == Run(pattern, text, 0, 0, -1, 0)
    ensures '*' !in text ==> (r <==> Wild(pattern, text))
  {
    var pi, ti, starPi, starTi := 0, 0, -1, 0;
    if '*' !in text {
      MatcherIsMeaning(pattern, text);
    }
    while ti < |text|
      invariant pi <= |pattern| && starTi <= ti <= |text| && -1 <= starPi < |pattern|
      invariant starTi >= 0 && pi >= 0
      invariant Run(pattern, text, 0, 0, -1, 0) == Run(pattern, text, pi, ti, starPi, starTi)
      decreases |text| - starTi, |pattern| - pi
    {
      if pi < |pattern| && (pattern[pi] == '?' || pattern[pi] == text[ti]) {
        pi := pi + 1;
        ti := ti + 1;
      } else if pi < |pattern| && pattern[pi] == '*' {
        starPi := pi;
        starTi := ti;
        pi := pi + 1;
      } else if starPi >= 0 {
        pi := starPi + 1;
        starTi := starTi + 1;
        ti := starTi;
      } else {
        return false;
      }
    }
    ghost var end := pi;
    while pi < |pattern| && pattern[pi] == '*'
      invariant end <= pi <= |pattern|
      invariant AllStars(pattern[end..]) == AllStars(pattern[pi..])
    {
      assert pattern[pi..][1..] == pattern[pi + 1..];
      pi := pi + 1;
    }
    r := pi >= |pattern|;
  }

  // The matcher computes the meaning

  /** `n` characters of pattern from `i`, none of them a star. */
  ghost predicate NoStars(p: seq<char>, i: nat, n: nat)
    requires i + n <= |p|
  {
    n == 0 || (NoStars(p, i, n - 1) && p[i + n - 1] != '*')
  }

  /** A piece of pattern without stars against the text it was matched with. */
  ghost predicate Segment(p: seq<char>, t: seq<char>, i: nat, j: nat, n: nat)
    requires i + n <= |p| && j + n <= |t|
    ensures Segment(p, t, i, j, n) ==> NoStars(p, i, n)
  {
    n == 0 || (Segment(p, t, i, j, n - 1)
               && p[i + n - 1] != '*' && (p[i + n - 1] == '?' || p[i + n - 1] == t[j + n - 1]))
  }

  lemma PeelOne(p: seq<char>, t: seq<char>, i: nat, j: nat)
    requires i < |p| && j < |t| && p[i] != '*' && (p[i] == '?' || p[i] == t[j])
    ensures Wild(p[i..], t[j..]) == Wild(p[i + 1..], t[j + 1..])
  {
    assert p[i..][1..] == p[i + 1..] && t[j..][1..] == t[j + 1..];
  }

  lemma {:induction false} SegmentPeels(p: seq<char>, t: seq<char>, i: nat, j: nat, n: nat)
    requires i + n <= |p| && j + n <= |t| && Segment(p, t, i, j, n)
    ensures Wild(p[i..], t[j..]) == Wild(p[i + n..], t[j + n..])
    decreases n
  {
    hide Wild;
    if n > 0 {
      SegmentPeels(p, t, i, j, n - 1);
      PeelOne(p, t, i + n - 1, j + n - 1);
    }
  }

  /** A text that matches has at least as many characters as the pattern has non-stars. */
  function Needs(p: seq<char>): nat {
    if p == [] then 0 else (if p[0] == '*' then 0 else 1) + Needs(p[1..])
  }

  lemma {:induction false} LongEnough(p: seq<char>, t: seq<char>)
    requires Wild(p, t)
    ensures |t| >= Needs(p)
    decreases p
  {
    if p != [] {
      if p[0] == '*' {
        var k :| 0 <= k <= |t| && Wild(p[1..], t[k..]);
        LongEnough(p[1..], t[k..]);
      } else {
        LongEnough(p[1..], t[1..]);
      }
    }
  }

  lemma NeedsOne(p: seq<char>, i: nat)
    requires i < |p|
    ensures Needs(p[i..]) == (if p[i] == '*' then 0 else 1) + Needs(p[i + 1..])
  {
    assert p[i..][1..] == p[i + 1..];
  }

  lemma {:induction false} NeedsSplit(p: seq<char>, i: nat, n: nat)
    requires i + n <= |p| && NoStars(p, i, n)
    ensures Needs(p[i..]) == n + Needs(p[i + n..])
    decreases n
  {
    hide Needs;
    if n > 0 {
      NeedsSplit(p, i, n - 1);
      NeedsOne(p, i + n - 1);
    }
  }

  lemma {:induction false} NothingNeeded(p: seq<char>)
    ensures Needs(p) == 0 <==> AllStars(p)
    ensures AllStars(p) <==> Wild(p, [])
  {
    var t: seq<char> := [];
    if p != [] {
      NothingNeeded(p[1..]);
      assert t[0..] == [];
    }
  }

  lemma StarMeans(p: seq<char>, t: seq<char>) returns (m: nat)
    requires p != [] && p[0] == '*' && Wild(p, t)
    ensures m <= |t| && Wild(p[1..], t[m..])
  {
    m :| 0 <= m <= |t| && Wild(p[1..], t[m..]);
  }

  /** A star can absorb what precedes what it already absorbs. */
  lemma StarAbsorbs(p: seq<char>, t: seq<char>, i: nat, j: nat, k: nat)
    requires i < |p| && p[i] == '*' && j <= k <= |t| && Wild(p[i..], t[k..])
    ensures Wild(p[i..], t[j..])
  {
    assert p[i..][1..] == p[i + 1..];
    var m := StarMeans(p[i..], t[k..]);
    assert t[k..][m..] == t[j..][k - j + m..];
  }

  lemma StarUnfolds(p: seq<char>, t: seq<char>, i: nat, j: nat)
    requires i < |p| && p[i] == '*' && j < |t|
    ensures Wild(p[i..], t[j..]) <==> Wild(p[i + 1..], t[j..]) || Wild(p[i..], t[j + 1..])
  {
    assert p[i..][1..] == p[i + 1..];
    if Wild(p[i..], t[j..]) {
      var k := StarMeans(p[i..], t[j..]);
      if k == 0 {
        assert t[j..][0..] == t[j..];
      } else {
        assert t[j..][k..] == t[j + 1..][k - 1..];
      }
    }
    if Wild(p[i + 1..], t[j..]) {
      assert t[j..][0..] == t[j..];
    }
    if Wild(p[i..], t[j + 1..]) {
      StarAbsorbs(p, t, i, j, j + 1);
    }
  }

  /** A new star makes the last one forgettable: what the segment between them matched
      earliest loses nothing. */
  lemma NewStar(p: seq<char>, t: seq<char>, star: nat, starTi: nat, pi: nat)
    requires star < pi < |p| && p[star] == '*' && p[pi] == '*' && starTi + (pi - star - 1) <= |t|
    requires Segment(p, t, star + 1, starTi, pi - star - 1)
    ensures Wild(p[star..], t[starTi..]) == Wild(p[pi..], t[starTi + (pi - star - 1)..])
  {
    hide Wild, Needs;
    var n := pi - star - 1;
    if Wild(p[pi..], t[starTi + n..]) {
      SegmentPeels(p, t, star + 1, starTi, n);
      StarMatchesNothing(p, t, star, starTi);
    }
    if Wild(p[star..], t[starTi..]) {
      var k := StarTakes(p, t, star, starTi);
      LongEnough(p[star + 1..], t[k..]);
      NeedsSplit(p, star + 1, n);
      SegmentMatches(p, t, star + 1, k, n);
      SegmentPeels(p, t, star + 1, k, n);
      StarAbsorbs(p, t, pi, starTi + n, k + n);
    }
  }

  lemma StarTakes(p: seq<char>, t: seq<char>, i: nat, j: nat) returns (k: nat)
    requires i < |p| && p[i] == '*' && j <= |t| && Wild(p[i..], t[j..])
    ensures j <= k <= |t| && Wild(p[i + 1..], t[k..])
  {
    hide Wild;
    assert p[i..][1..] == p[i + 1..];
    var m := StarMeans(p[i..], t[j..]);
    assert t[j..][m..] == t[j + m..];
    k := j + m;
  }

  lemma {:induction false} SegmentMatches(p: seq<char>, t: seq<char>, i: nat, j: nat, n: nat)
    requires i + n <= |p| && j + n <= |t| && Wild(p[i..], t[j..]) && NoStars(p, i, n)
    ensures Segment(p, t, i, j, n)
    decreases n
  {
    if n > 0 {
      SegmentMatches(p, t, i, j, n - 1);
      SegmentPeels(p, t, i, j, n - 1);
      assert Wild(p[i + n - 1..], t[j + n - 1..]);
    }
  }

  /** From any state it can reach, the loop decides what is left to decide: the rest of the
      pattern before any star, the pattern from the last star afterwards. */
  lemma {:induction false} RunIsMeaning(p: seq<char>, t: seq<char>, pi: nat, ti: nat, star: int, starTi: nat)
    requires '*' !in t
    requires pi <= |p| && starTi <= ti <= |t| && -1 <= star < |p|
    requires star >= 0 ==>
      && star < pi && p[star] == '*' && ti - starTi == pi - star - 1
      && Segment(p, t, star + 1, starTi, ti - starTi)
    ensures Run(p, t, pi, ti, star, starTi)
         == if star < 0 then Wild(p[pi..], t[ti..]) else Wild(p[star..], t[starTi..])
    decreases |t| - starTi, |p| - pi
  {
    hide Wild, Run;
    RunStep(p, t, pi, ti, star, starTi);
    if ti == |t| {
      RunEnds(p, t, pi, star, starTi);
    } else if pi < |p| && (p[pi] == '?' || p[pi] == t[ti]) {
      assert t[ti] in t;
      if star < 0 {
        SegmentPeels(p, t, pi, ti, 1);
      }
      RunIsMeaning(p, t, pi + 1, ti + 1, star, starTi);
    } else if pi < |p| && p[pi] == '*' {
      if star >= 0 {
        NewStar(p, t, star, starTi, pi);
      }
      RunIsMeaning(p, t, pi + 1, ti, pi, ti);
    } else {
      Mismatch(p, t, pi, ti);
      if star >= 0 {
        SegmentPeels(p, t, star + 1, starTi, ti - starTi);
        StarUnfolds(p, t, star, starTi);
        RunIsMeaning(p, t, star + 1, starTi + 1, star, starTi + 1);
      }
    }
  }

  lemma RunStep(p: seq<char>, t: seq<char>, pi: nat, ti: nat, star: int, starTi: nat)
    requires pi <= |p| && starTi <= ti <= |t| && -1 <= star < |p|
    ensures Run(p, t, pi, ti, star, starTi) ==
      if ti == |t| then AllStars(p[pi..])
      else if pi < |p| && (p[pi] == '?' || p[pi] == t[ti]) then Run(p, t, pi + 1, ti + 1, star, starTi)
      else if pi < |p| && p[pi] == '*' then Run(p, t, pi + 1, ti, pi, ti)
      else if star >= 0 then Run(p, t, star + 1, starTi + 1, star, starTi + 1)
      else false
  {
  }

  lemma Mismatch(p: seq<char>, t: seq<char>, pi: nat, ti: nat)
    requires pi <= |p| && ti < |t|
    requires pi < |p| ==> p[pi] != '*' && p[pi] != '?' && p[pi] != t[ti]
    ensures !Wild(p[pi..], t[ti..])
  {
  }

  lemma RunEnds(p: seq<char>, t: seq<char>, pi: nat, star: int, starTi: nat)
    requires pi <= |p| && starTi <= |t| && -1 <= star < |p|
    requires star >= 0 ==>
      && star < pi && p[star] == '*' && |t| - starTi == pi - star - 1
      && Segment(p, t, star + 1, starTi, |t| - starTi)
    ensures AllStars(p[pi..]) == if star < 0 then Wild(p[pi..], t[|t|..]) else Wild(p[star..], t[starTi..])
  {
    hide Wild, AllStars, Segment;
    NothingNeeded(p[pi..]);
    assert t[|t|..] == [];
    if star >= 0 {
      SegmentPeels(p, t, star + 1, starTi, |t| - starTi);
      if AllStars(p[pi..]) {
        StarMatchesNothing(p, t, star, starTi);
      } else {
        RestNeedsMore(p, t, pi, star, starTi);
      }
    }
  }

  /** What is left of the pattern needs characters that are no longer there. */
  lemma RestNeedsMore(p: seq<char>, t: seq<char>, pi: nat, star: nat, starTi: nat)
    requires star < pi <= |p| && starTi <= |t| && p[star] == '*' && |t| - starTi == pi - star - 1
    requires Segment(p, t, star + 1, starTi, |t| - starTi) && !AllStars(p[pi..])
    ensures !Wild(p[star..], t[starTi..])
  {
    hide Wild, AllStars, Needs;
    NothingNeeded(p[pi..]);
    StarNeedsNothing(p, star);
    NeedsSplit(p, star + 1, |t| - starTi);
    if Wild(p[star..], t[starTi..]) {
      LongEnough(p[star..], t[starTi..]);
    }
  }

  lemma StarMatchesNothing(p: seq<char>, t: seq<char>, i: nat, j: nat)
    requires i < |p| && p[i] == '*' && j <= |t| && Wild(p[i + 1..], t[j..])
    ensures Wild(p[i..], t[j..])
  {
    assert p[i..][1..] == p[i + 1..];
    assert t[j..][0..] == t[j..];
  }

  lemma StarNeedsNothing(p: seq<char>, i: nat)
    requires i < |p| && p[i] == '*'
    ensures Needs(p[i..]) == Needs(p[i + 1..])
  {
    assert p[i..][1..] == p[i + 1..];
  }

  /** On every pattern and every text without `*`, the matcher decides the meaning. */
  lemma MatcherIsMeaning(p: seq<char>, t: seq<char>)
    requires '*' !in t
    ensures Run(p, t, 0, 0, -1, 0) == Wild(p, t)
  {
    hide Wild, Run;
    RunIsMeaning(p, t, 0, 0, -1, 0);
    assert p[0..] == p && t[0..] == t;
  }

  // On texts with a star

  lemma {:induction false} CommonPrefix(p: seq<char>, t: seq<char>, n: nat)
    requires n <= |p| && n <= |t| && forall k :: 0 <= k < n ==> p[k] == t[k]
    ensures Run(p, t, 0, 0, -1, 0) == Run(p, t, n, n, -1, 0)
    decreases n
  {
    hide Run;
    if n > 0 {
      CommonPrefix(p, t, n - 1);
      RunStep(p, t, n - 1, n - 1, -1, 0);
    }
  }

  lemma {:induction false} PlainPrefix(u: seq<char>, p: seq<char>, t: seq<char>)
    requires '*' !in u
    ensures Wild(u + p, u + t) == Wild(p, t)
  {
    if u == [] {
      assert u + p == p && u + t == t;
    } else {
      assert u[0] in u;
      assert (u + p)[1..] == u[1..] + p && (u + t)[1..] == u[1..] + t;
      PlainPrefix(u[1..], p, t);
    }
  }

  /** On any text with a `*`, some pattern is decided wrongly: the star of the pattern is taken
      for the star of the text and never backtracked to. */
  lemma StarredTextFails(t: seq<char>, i: nat) returns (p: seq<char>)
    requires i < |t| && t[i] == '*' && '*' !in t[..i]
    ensures !Run(p, t, 0, 0, -1, 0) && Wild(p, t)
  {
    var u, rest := t[..i], t[i..];
    var last := i + 1 == |t|;
    var q := if last then ['*', '?'] else ['*'];
    p := u + q;
    CommonPrefix(p, t, i + 1);
    assert p[i + 1..] == if last then ['?'] else [];
    assert t == u + rest;
    PlainPrefix(u, q, rest);
    assert Wild(q, rest) by {
      assert q[1..] == if last then ['?'] else [];
      if last {
        assert rest == ['*'] && rest[0..] == rest;
        assert Wild(['?'], rest);
      } else {
        assert rest[|rest|..] == [];
      }
    }
  }

  /** The matcher is right on every pattern for exactly the texts without `*`. */
  lemma RightTexts(t: seq<char>)
    ensures (forall p :: Run(p, t, 0, 0, -1, 0) == Wild(p, t)) <==> '*' !in t
  {
    hide Run, Wild;
    if '*' in t {
      var i := FirstStar(t);
      var p := StarredTextFails(t, i);
      assert Run(p, t, 0, 0, -1, 0) != Wild(p, t);
    } else {
      forall p ensures Run(p, t, 0, 0, -1, 0) == Wild(p, t) {
        MatcherIsMeaning(p, t);
      }
    }
  }

  lemma {:induction false} FirstStar(t: seq<char>) returns (i: nat)
    requires '*' in t
    ensures i < |t| && t[i] == '*' && '*' !in t[..i]
  {
    if t[0] == '*' {
      i := 0;
    } else {
      i := FirstStar(t[1..]);
      i := i + 1;
      assert t[..i] == [t[0]] + t[1..][..i - 1];
    }
  }

  // The tokens a field is matched on

  /** What Unicode says of characters, as far as tokenisation uses it. */
  datatype CharClasses = CharClasses(lower: char -> seq<char>, alphanumeric: char -> bool, whitespace: char -> bool)

  function FoldSearchChar(cc: CharClasses, c: char): char {
    if c in {'\U{00e0}', '\U{00e1}', '\U{00e2}', '\U{00e3}', '\U{00e4}', '\U{00e5}'} then 'a'
    else if c == '\U{00e7}' then 'c'
    else if c in {'\U{00e8}', '\U{00e9}', '\U{00ea}', '\U{00eb}'} then 'e'
    else if c in {'\U{00ec}', '\U{00ed}', '\U{00ee}', '\U{00ef}'} then 'i'
    else if c == '\U{00f1}' then 'n'
    else if c in {'\U{00f2}', '\U{00f3}', '\U{00f4}', '\U{00f5}', '\U{00f6}'} then 'o'
    else if c in {'\U{00f9}', '\U{00fa}', '\U{00fb}', '\U{00fc}'} then 'u'
    else if c in {'\U{00fd}', '\U{00ff}'} then 'y'
    else if cc.alphanumeric(c) then c
    else ' '
  }

  function FoldAll(cc: CharClasses, s: seq<char>): seq<char> {
    if s == [] then [] else [FoldSearchChar(cc, s[0])] + FoldAll(cc, s[1..])
  }

  function NormalizeText(cc: CharClasses, s: seq<char>): seq<char> {
    if s == [] then [] else FoldAll(cc, cc.lower(s[0])) + NormalizeText(cc, s[1..])
  }

  /** The maximal runs of characters that are not whitespace; `word` is the run under way. */
  function Words(cc: CharClasses, word: seq<char>, s: seq<char>): seq<seq<char>>
    decreases s
  {
    var done := if word == [] then [] else [word];
    if s == [] then done
    else if cc.whitespace(s[0]) then done + Words(cc, [], s[1..])
    else Words(cc, word + [s[0]], s[1..])
  }

  function Tokens(cc: CharClasses, text: seq<char>): seq<seq<char>> {
    Words(cc, [], NormalizeText(cc, text))
  }

  function NormalizeWildcard(cc: CharClasses, s: seq<char>): seq<char> {
    if s == [] then [] else FoldWildcard(cc, cc.lower(s[0])) + NormalizeWildcard(cc, s[1..])
  }

  function FoldWildcard(cc: CharClasses, s: seq<char>): seq<char> {
    if s == [] then []
    else [if s[0] == '*' || s[0] == '?' then s[0] else FoldSearchChar(cc, s[0])] + FoldWildcard(cc, s[1..])
  }

  lemma {:induction false} FoldedHasNoStar(cc: CharClasses, s: seq<char>)
    requires !cc.alphanumeric('*')
    ensures '*' !in FoldAll(cc, s)
  {
    if s != [] {
      FoldedHasNoStar(cc, s[1..]);
      assert FoldAll(cc, s) == [FoldSearchChar(cc, s[0])] + FoldAll(cc, s[1..]);
    }
  }

  lemma {:induction false} NormalizedHasNoStar(cc: CharClasses, s: seq<char>)
    requires !cc.alphanumeric('*')
    ensures '*' !in NormalizeText(cc, s)
  {
    if s != [] {
      FoldedHasNoStar(cc, cc.lower(s[0]));
      NormalizedHasNoStar(cc, s[1..]);
    }
  }

  lemma {:induction false} WordsHaveNoStar(cc: CharClasses, word: seq<char>, s: seq<char>)
    requires '*' !in word && '*' !in s
    ensures forall token | token in Words(cc, word, s) :: '*' !in token
    decreases s
  {
    if s != [] {
      WordsHaveNoStar(cc, [], s[1..]);
      WordsHaveNoStar(cc, word + [s[0]], s[1..]);
    }
  }

  /** Tokens never contain `*`, so the matcher is right on every one of them. */
  lemma TokensHaveNoStar(cc: CharClasses, text: seq<char>)
    requires !cc.alphanumeric('*')
    ensures forall token | token in Tokens(cc, text) :: '*' !in token
  {
    NormalizedHasNoStar(cc, text);
    WordsHaveNoStar(cc, [], NormalizeText(cc, text));
  }

  /** Whether some token of the field matches the pattern, in the declarative meaning. */
  method WildcardFieldMatches(cc: CharClasses, text: Option<seq<char>>, pattern: seq<char>) returns (r: bool)
    requires !cc.alphanumeric('*')
    ensures r <==> (NormalizeWildcard(cc, pattern) != [] && text.Some?
                    && exists token | token in Tokens(cc, text.value) :: Wild(NormalizeWildcard(cc, pattern), token))
  {
    hide Wild, Run, Tokens, NormalizeWildcard;
    var patternChars := NormalizeWildcard(cc, pattern);
    if patternChars == [] || text.None? {
      return false;
    }
    var tokens := Tokens(cc, text.value);
    TokensHaveNoStar(cc, text.value);
    for i := 0 to |tokens|
      invariant forall j :: 0 <= j < i ==> !Wild(patternChars, tokens[j])
    {
      assert tokens[i] in tokens;
      var matched := WildcardPatternMatches(patternChars, tokens[i]);
      if matched {
        return true;
      }
    }
    return false;
  }
}
