/** What normalisation keeps of a pattern and of a field's text, and what a pattern means piece
    by piece. */
module WildcardFields {
  import opened Sequences
  import opened Wildcard

  // Normalisation, character by character

  /** The text with every character lower-cased, which can make several of one. */
  function Lowered(cc: CharClasses, s: seq<char>): seq<char> {
    if s == [] then [] else cc.lower(s[0]) + Lowered(cc, s[1..])
  }

  predicate IsWild(c: char) {
    c == '*' || c == '?'
  }

  /** `t` is `s` with each character replaced by the one the same place of `f` gives. */
  ghost predicate Mapped(f: char -> char, s: seq<char>, t: seq<char>) {
    |t| == |s| && forall i :: 0 <= i < |s| ==> t[i] == f(s[i])
  }

  function TextFold(cc: CharClasses): char -> char {
    c => FoldSearchChar(cc, c)
  }

  function PatternFold(cc: CharClasses): char -> char {
    c => if IsWild(c) then c else FoldSearchChar(cc, c)
  }

  lemma MappedConcat(f: char -> char, a: seq<char>, b: seq<char>, a': seq<char>, b': seq<char>)
    requires Mapped(f, a, a') && Mapped(f, b, b')
    ensures Mapped(f, a + b, a' + b')
  {
  }

  lemma {:induction false} FoldsMap(cc: CharClasses, s: seq<char>)
    ensures Mapped(TextFold(cc), s, FoldAll(cc, s)) && Mapped(PatternFold(cc), s, FoldWildcard(cc, s))
  {
    if s != [] {
      hide FoldSearchChar;
      FoldsMap(cc, s[1..]);
      assert s == [s[0]] + s[1..];
      MappedConcat(TextFold(cc), [s[0]], s[1..], [TextFold(cc)(s[0])], FoldAll(cc, s[1..]));
      MappedConcat(PatternFold(cc), [s[0]], s[1..], [PatternFold(cc)(s[0])], FoldWildcard(cc, s[1..]));
    }
  }

  /** Text is lower-cased and folded; a pattern likewise, but for its `*` and `?`, which stay. */
  lemma {:induction false} NormalisationKeeps(cc: CharClasses, s: seq<char>)
    ensures Mapped(TextFold(cc), Lowered(cc, s), NormalizeText(cc, s))
    ensures Mapped(PatternFold(cc), Lowered(cc, s), NormalizeWildcard(cc, s))
  {
    if s != [] {
      hide Mapped, FoldAll, FoldWildcard;
      FoldsMap(cc, cc.lower(s[0]));
      NormalisationKeeps(cc, s[1..]);
      MappedConcat(TextFold(cc), cc.lower(s[0]), Lowered(cc, s[1..]), FoldAll(cc, cc.lower(s[0])),
                   NormalizeText(cc, s[1..]));
      MappedConcat(PatternFold(cc), cc.lower(s[0]), Lowered(cc, s[1..]), FoldWildcard(cc, cc.lower(s[0])),
                   NormalizeWildcard(cc, s[1..]));
    } else {
      NothingMapped(TextFold(cc));
      NothingMapped(PatternFold(cc));
    }
  }

  lemma NothingMapped(f: char -> char)
    ensures Mapped(f, [], [])
  {
  }

  /** Folding by code point: accented Latin letters lose their accents, other letters and digits
      stay, and everything else is a blank. */
  lemma FoldTable(cc: CharClasses, c: char)
    ensures var n := c as int;
      FoldSearchChar(cc, c) ==
        if 0xe0 <= n <= 0xe5 then 'a' else if n == 0xe7 then 'c' else if 0xe8 <= n <= 0xeb then 'e'
        else if 0xec <= n <= 0xef then 'i' else if n == 0xf1 then 'n' else if 0xf2 <= n <= 0xf6 then 'o'
        else if 0xf9 <= n <= 0xfc then 'u' else if n == 0xfd || n == 0xff then 'y'
        else if cc.alphanumeric(c) then c else ' '
  {
  }

  // Tokens

  predicate IsWord(cc: CharClasses, s: seq<char>) {
    s != [] && forall c | c in s :: !cc.whitespace(c)
  }

  lemma {:induction false} WordsOfWord(cc: CharClasses, word: seq<char>, s: seq<char>)
    requires forall c | c in s :: !cc.whitespace(c)
    ensures Words(cc, word, s) == if word + s == [] then [] else [word + s]
    decreases s
  {
    if s != [] {
      WordsOfWord(cc, word + [s[0]], s[1..]);
      assert word + [s[0]] + s[1..] == word + s;
    } else {
      assert word + s == word;
    }
  }

  lemma {:induction false} WordsSplit(cc: CharClasses, word: seq<char>, a: seq<char>, blank: char, b: seq<char>)
    requires cc.whitespace(blank)
    ensures Words(cc, word, a + [blank] + b) == Words(cc, word, a) + Words(cc, [], b)
    decreases a
  {
    var s := a + [blank] + b;
    if a == [] {
      assert s[0] == blank && s[1..] == b;
    } else {
      assert s[0] == a[0] && s[1..] == a[1..] + [blank] + b;
      if cc.whitespace(a[0]) {
        WordsSplit(cc, [], a[1..], blank, b);
        Reassociate(if word == [] then [] else [word], Words(cc, [], a[1..]), Words(cc, [], b));
      } else {
        WordsSplit(cc, word + [a[0]], a[1..], blank, b);
      }
    }
  }

  lemma {:induction false} NormalizeConcat(cc: CharClasses, a: seq<char>, b: seq<char>)
    ensures NormalizeText(cc, a + b) == NormalizeText(cc, a) + NormalizeText(cc, b)
  {
    if a == [] {
      assert a + b == b;
    } else {
      assert (a + b)[1..] == a[1..] + b;
      NormalizeConcat(cc, a[1..], b);
      Reassociate(FoldAll(cc, cc.lower(a[0])), NormalizeText(cc, a[1..]), NormalizeText(cc, b));
    }
  }

  /** Text splits at every character that folds to a blank; without one it is a single token, and
      no text no token. */
  lemma TokenLaws(cc: CharClasses, a: seq<char>, separator: char, blank: char, b: seq<char>)
    ensures Tokens(cc, []) == []
    ensures NormalizeText(cc, [separator]) == [blank] && cc.whitespace(blank) ==>
      Tokens(cc, a + [separator] + b) == Tokens(cc, a) + Tokens(cc, b)
    ensures IsWord(cc, NormalizeText(cc, a)) ==> Tokens(cc, a) == [NormalizeText(cc, a)]
  {
    hide Words, NormalizeText;
    NoWords(cc);
    if NormalizeText(cc, [separator]) == [blank] && cc.whitespace(blank) {
      NormalizeConcat(cc, a + [separator], b);
      NormalizeConcat(cc, a, [separator]);
      WordsSplit(cc, [], NormalizeText(cc, a), blank, NormalizeText(cc, b));
    }
    if IsWord(cc, NormalizeText(cc, a)) {
      WordsOfWord(cc, [], NormalizeText(cc, a));
      assert [] + NormalizeText(cc, a) == NormalizeText(cc, a);
    }
  }

  lemma NoWords(cc: CharClasses)
    ensures NormalizeText(cc, []) == [] && Words(cc, [], []) == []
  {
  }

  // Patterns on plain words

  /** Lower-case ASCII letters and digits, on which Unicode has nothing to say. */
  predicate Settled(cc: CharClasses, c: char) {
    c as int < 0x80 && cc.lower(c) == [c] && cc.alphanumeric(c) && !cc.whitespace(c)
  }

  lemma {:induction false} SettledLowered(cc: CharClasses, s: seq<char>)
    requires forall c | c in s :: cc.lower(c) == [c]
    ensures Lowered(cc, s) == s
  {
    if s != [] {
      SettledLowered(cc, s[1..]);
      assert s[0] in s;
    }
  }

  /** A field that is one such word is matched on that word, by the pattern as it is written. */
  lemma PlainWord(cc: CharClasses, text: seq<char>, pattern: seq<char>)
    requires text != [] && forall c | c in text :: Settled(cc, c)
    requires forall c | c in pattern :: Settled(cc, c) || (IsWild(c) && cc.lower(c) == [c])
    ensures Tokens(cc, text) == [text] && NormalizeWildcard(cc, pattern) == pattern
  {
    hide Tokens, NormalizeWildcard, NormalizeText, FoldSearchChar;
    SettledLowered(cc, text);
    SettledLowered(cc, pattern);
    NormalisationKeeps(cc, text);
    NormalisationKeeps(cc, pattern);
    forall c | Settled(cc, c) ensures FoldSearchChar(cc, c) == c {
      FoldTable(cc, c);
    }
    assert forall i :: 0 <= i < |text| ==> text[i] in text;
    assert forall i :: 0 <= i < |pattern| ==> pattern[i] in pattern;
    assert NormalizeText(cc, text) == text && NormalizeWildcard(cc, pattern) == pattern;
    TokenLaws(cc, text, ' ', ' ', []);
  }

  // Patterns, piece by piece

  function Flatten(pieces: seq<seq<char>>): seq<char> {
    if pieces == [] then [] else pieces[0] + Flatten(pieces[1..])
  }

  /** What one character of a pattern stands for. */
  predicate Fits(c: char, piece: seq<char>) {
    c == '*' || (|piece| == 1 && (c == '?' || c == piece[0]))
  }

  ghost predicate AllFit(p: seq<char>, pieces: seq<seq<char>>) {
    |pieces| == |p| && forall i :: 0 <= i < |p| ==> Fits(p[i], pieces[i])
  }

  lemma AllFitCons(c: char, p: seq<char>, piece: seq<char>, pieces: seq<seq<char>>)
    requires AllFit(p, pieces) && Fits(c, piece)
    ensures AllFit([c] + p, [piece] + pieces) && Flatten([piece] + pieces) == piece + Flatten(pieces)
  {
    assert ([piece] + pieces)[1..] == pieces;
  }

  lemma AllFitTail(p: seq<char>, pieces: seq<seq<char>>)
    requires p != [] && AllFit(p, pieces)
    ensures pieces != [] && Fits(p[0], pieces[0]) && AllFit(p[1..], pieces[1..])
    ensures Flatten(pieces) == pieces[0] + Flatten(pieces[1..])
  {
  }

  lemma {:induction false} WildPieces(p: seq<char>, t: seq<char>) returns (pieces: seq<seq<char>>)
    requires Wild(p, t)
    ensures AllFit(p, pieces) && Flatten(pieces) == t
  {
    pieces := [];
    if p != [] {
      var k :| 0 <= k <= |t| && Wild(p[1..], t[k..]) && Fits(p[0], t[..k]) by {
        assert p[0] != '*' ==> t[1..] == t[1..] && |t[..1]| == 1 && t[..1][0] == t[0];
      }
      var rest := WildPieces(p[1..], t[k..]);
      AllFitCons(p[0], p[1..], t[..k], rest);
      assert p == [p[0]] + p[1..] && t == t[..k] + t[k..];
      pieces := [t[..k]] + rest;
    }
  }

  lemma {:induction false} PiecesWild(p: seq<char>, pieces: seq<seq<char>>)
    requires AllFit(p, pieces)
    ensures Wild(p, Flatten(pieces))
  {
    if p != [] {
      AllFitTail(p, pieces);
      PiecesWild(p[1..], pieces[1..]);
      var t, k := Flatten(pieces), |pieces[0]|;
      assert t[k..] == Flatten(pieces[1..]);
    }
  }

  /** A pattern matches a text exactly if the text can be cut into as many pieces as the pattern
      has characters, any piece for a `*`, one character for a `?`, itself for anything else. */
  lemma WildMeans(p: seq<char>, t: seq<char>)
    ensures Wild(p, t) <==> exists pieces :: AllFit(p, pieces) && Flatten(pieces) == t
  {
    hide Wild, AllFit, Flatten;
    if Wild(p, t) {
      var pieces := WildPieces(p, t);
    }
    forall pieces | AllFit(p, pieces) && Flatten(pieces) == t ensures Wild(p, t) {
      PiecesWild(p, pieces);
    }
  }
}
