/** Regrouping of concatenations. */
module Sequences {

  lemma Reassociate<T>(a: seq<T>, b: seq<T>, c: seq<T>)
    ensures a + (b + c) == a + b + c
  {
  }

  lemma AppendToFour<T>(a: seq<T>, b: seq<T>, c: seq<T>, d: seq<T>, t: seq<T>)
    ensures a + (b + (c + d)) + t == a + (b + (c + (d + t)))
  {
  }

  lemma DropPrefix<T>(a: seq<T>, b: seq<T>, i: nat)
    requires i <= |b|
    ensures (a + b)[|a| + i..] == b[i..]
  {
  }

  lemma DropTwice<T>(s: seq<T>, i: nat, j: nat)
    requires i + j <= |s|
    ensures s[i..][j..] == s[i + j..]
  {
  }

  lemma SplitBefore<T>(s: seq<T>, k: nat, t: seq<T>)
    requires k <= |s|
    ensures s + t == s[..k] + (s[k..] + t)
  {
  }

  lemma SplitFirst<T>(s: seq<T>, t: seq<T>)
    requires s != []
    ensures s + t == [s[0]] + (s[1..] + t) && s == [s[0]] + s[1..]
  {
  }

  lemma PrefixParts<T>(s: seq<T>, i: nat, j: nat)
    requires i + j <= |s|
    ensures s[..i + j][..i] == s[..i] && s[..i + j][i..] == s[i..][..j] && s[i..][j..] == s[i + j..]
  {
  }
}
