/** What a query matches and what a search returns, as laws over sets of documents. Taken
    together they compute the set of any query without mention of how it is matched. */
module MatchLaws {
  import opened Options
  import opened CandidateSets

  // Leaves

  /** The documents of the index that hold a token. */
  function Holding(ix: Index, field: string, token: string): set<nat> {
    ix.docs * ix.holders(field, token)
  }

  lemma TermLaw(ix: Index, field: string, text: string)
    ensures MatchSet(ix, Term(field, text)) ==
      match ix.analysis.term(field, text)
      case None => {}
      case Some(token) => Holding(ix, field, token)
  {
  }

  function HoldingAny(ix: Index, field: string, tokens: seq<string>): set<nat> {
    if tokens == [] then {} else Holding(ix, field, tokens[0]) + HoldingAny(ix, field, tokens[1..])
  }

  function HoldingAll(ix: Index, field: string, tokens: seq<string>): set<nat> {
    if tokens == [] then ix.docs else Holding(ix, field, tokens[0]) * HoldingAll(ix, field, tokens[1..])
  }

  lemma {:induction false} InHoldings(ix: Index, field: string, tokens: seq<string>, d: nat)
    ensures d in HoldingAny(ix, field, tokens)
      <==> (d in ix.docs && exists token | token in tokens :: d in ix.holders(field, token))
    ensures d in HoldingAll(ix, field, tokens)
      <==> (d in ix.docs && forall token | token in tokens :: d in ix.holders(field, token))
  {
    if tokens != [] {
      InHoldings(ix, field, tokens[1..], d);
      assert forall token :: token in tokens <==> token == tokens[0] || token in tokens[1..];
    }
  }

  /** A `match` on any token is a union, on all tokens an intersection, and on text without
      tokens empty either way. */
  lemma MatchLaw(ix: Index, field: string, text: string)
    ensures var tokens := ix.analysis.terms(field, text);
      && MatchSet(ix, Match(field, text, Or)) == HoldingAny(ix, field, tokens)
      && MatchSet(ix, Match(field, text, And)) == if tokens == [] then {} else HoldingAll(ix, field, tokens)
  {
    hide HoldingAny, HoldingAll;
    var tokens := ix.analysis.terms(field, text);
    forall d: nat
      ensures d in MatchSet(ix, Match(field, text, Or)) <==> d in HoldingAny(ix, field, tokens)
      ensures tokens != [] ==> (d in MatchSet(ix, Match(field, text, And)) <==> d in HoldingAll(ix, field, tokens))
    {
      InHoldings(ix, field, tokens, d);
    }
  }

  /** A `multi_match` is the union of a `match` on each field. */
  lemma MultiMatchLaw(ix: Index, text: string, fields: seq<string>, field: string, operator: Operator)
    ensures MatchSet(ix, MultiMatch(text, [], operator)) == {}
    ensures MatchSet(ix, MultiMatch(text, fields + [field], operator))
      == MatchSet(ix, MultiMatch(text, fields, operator)) + MatchSet(ix, Match(field, text, operator))
  {
    hide FieldMatches;
    var wider := fields + [field];
    assert forall f :: f in wider <==> f in fields || f == field;
    forall d: nat
      ensures Matches(ix, MultiMatch(text, wider, operator), d)
        <==> (Matches(ix, MultiMatch(text, fields, operator), d) || Matches(ix, Match(field, text, operator), d))
    {
      if FieldMatches(ix, field, text, operator, d) {
        assert field in wider;
      }
    }
  }

  lemma LeafLaws(ix: Index, field: string, text: string, leaf: nat, inner: Query)
    ensures MatchSet(ix, Prefix(field, text)) == ix.docs * ix.prefixDocs(field, text)
    ensures MatchSet(ix, Other(leaf)) == ix.docs * ix.otherDocs(leaf)
    ensures MatchSet(ix, FunctionScore(inner)) == MatchSet(ix, inner)
  {
  }

  // Boolean queries

  /** Matching a boolean query, by the clauses of each kind. */
  lemma BoolMatches(ix: Index, q: Query, d: nat)
    requires q.Bool?
    ensures Matches(ix, q, d) <==>
      && AllMatch(ix, q.must, d) && AllMatch(ix, q.filter, d) && NoneMatches(ix, q.mustNot, d)
      && (q.should == [] || CountMatching(ix, q.should, d) >= q.minimumShouldMatch)
  {
  }

  ghost predicate AllMatch(ix: Index, qs: seq<Query>, d: nat) {
    forall q | q in qs :: Matches(ix, q, d)
  }

  ghost predicate NoneMatches(ix: Index, qs: seq<Query>, d: nat) {
    forall q | q in qs :: !Matches(ix, q, d)
  }

  lemma OneMore(ix: Index, qs: seq<Query>, x: Query, d: nat)
    ensures AllMatch(ix, qs + [x], d) <==> AllMatch(ix, qs, d) && Matches(ix, x, d)
    ensures NoneMatches(ix, qs + [x], d) <==> NoneMatches(ix, qs, d) && !Matches(ix, x, d)
  {
    hide Matches;
    assert forall q :: q in qs + [x] <==> q in qs || q == x;
  }

  /** Without clauses every document matches. */
  lemma EmptyLaw(ix: Index, minimum: nat)
    ensures MatchSet(ix, Bool([], [], [], [], minimum)) == ix.docs
  {
  }

  /** One more `must` or `filter` clause intersects. */
  lemma MustLaw(ix: Index, must: seq<Query>, filter: seq<Query>, mustNot: seq<Query>, should: seq<Query>, minimum: nat,
                x: Query)
    ensures MatchSet(ix, Bool(must + [x], filter, mustNot, should, minimum))
      == MatchSet(ix, Bool(must, filter, mustNot, should, minimum)) * MatchSet(ix, x)
    ensures MatchSet(ix, Bool(must, filter + [x], mustNot, should, minimum))
      == MatchSet(ix, Bool(must, filter, mustNot, should, minimum)) * MatchSet(ix, x)
  {
    hide Matches, AllMatch, NoneMatches, CountMatching;
    forall d: nat
      ensures var inside := Matches(ix, Bool(must, filter, mustNot, should, minimum), d) && Matches(ix, x, d);
        && (Matches(ix, Bool(must + [x], filter, mustNot, should, minimum), d) <==> inside)
        && (Matches(ix, Bool(must, filter + [x], mustNot, should, minimum), d) <==> inside)
    {
      BoolMatches(ix, Bool(must, filter, mustNot, should, minimum), d);
      BoolMatches(ix, Bool(must + [x], filter, mustNot, should, minimum), d);
      BoolMatches(ix, Bool(must, filter + [x], mustNot, should, minimum), d);
      OneMore(ix, must, x, d);
      OneMore(ix, filter, x, d);
    }
  }

  /** One more `must_not` clause removes what it matches. */
  lemma MustNotLaw(ix: Index, must: seq<Query>, filter: seq<Query>, mustNot: seq<Query>, should: seq<Query>,
                   minimum: nat, x: Query)
    ensures MatchSet(ix, Bool(must, filter, mustNot + [x], should, minimum))
      == MatchSet(ix, Bool(must, filter, mustNot, should, minimum)) - MatchSet(ix, x)
  {
    hide Matches, AllMatch, NoneMatches, CountMatching;
    forall d: nat
      ensures Matches(ix, Bool(must, filter, mustNot + [x], should, minimum), d)
        <==> (Matches(ix, Bool(must, filter, mustNot, should, minimum), d) && !Matches(ix, x, d))
    {
      BoolMatches(ix, Bool(must, filter, mustNot, should, minimum), d);
      BoolMatches(ix, Bool(must, filter, mustNot + [x], should, minimum), d);
      OneMore(ix, mustNot, x, d);
    }
  }

  /** Positions of clauses that match the document. */
  ghost predicate MatchingPositions(ix: Index, qs: seq<Query>, d: nat, positions: set<nat>) {
    forall i | i in positions :: i < |qs| && Matches(ix, qs[i], d)
  }

  ghost predicate SomeMatch(ix: Index, qs: seq<Query>, n: nat, d: nat) {
    exists positions: set<nat> :: |positions| == n && MatchingPositions(ix, qs, d, positions)
  }

  lemma CountFrom(ix: Index, qs: seq<Query>, d: nat, from: nat)
    requires from < |qs|
    ensures CountMatching(ix, qs[from..], d)
      == (if Matches(ix, qs[from], d) then 1 else 0) + CountMatching(ix, qs[from + 1..], d)
  {
    assert qs[from..][1..] == qs[from + 1..];
  }

  /** The positions from `from` on of all the clauses that match, as many as are counted. */
  lemma {:induction false} CountedPositions(ix: Index, qs: seq<Query>, d: nat, from: nat) returns (positions: set<nat>)
    requires from <= |qs|
    ensures MatchingPositions(ix, qs, d, positions) && |positions| == CountMatching(ix, qs[from..], d)
    ensures forall i | i in positions :: from <= i
    decreases |qs| - from
  {
    hide Matches;
    positions := {};
    if from < |qs| {
      var later := CountedPositions(ix, qs, d, from + 1);
      CountFrom(ix, qs, d, from);
      positions := later + if Matches(ix, qs[from], d) then {from} else {};
    }
  }

  lemma {:induction false} PositionsCounted(ix: Index, qs: seq<Query>, d: nat, from: nat, positions: set<nat>)
    requires from <= |qs| && MatchingPositions(ix, qs, d, positions)
    requires forall i | i in positions :: from <= i
    ensures |positions| <= CountMatching(ix, qs[from..], d)
    decreases |qs| - from
  {
    hide Matches;
    if from == |qs| {
      assert positions == {};
    } else {
      hide CountMatching;
      var later := positions - {from};
      PositionsCounted(ix, qs, d, from + 1, later);
      CountFrom(ix, qs, d, from);
      assert |positions| <= |later| + 1 && (from !in positions ==> later == positions);
    }
  }

  lemma Smaller(s: set<nat>, size: nat) returns (r: set<nat>)
    requires size <= |s|
    ensures r <= s && |r| == size
  {
    r := s;
    while |r| > size
      invariant r <= s && |r| >= size
      decreases |r|
    {
      var p :| p in r;
      r := r - {p};
    }
  }

  /** A non-empty `should` keeps the documents matching its clauses at `minimum` distinct
      positions. */
  lemma ShouldLaw(ix: Index, q: Query, d: nat)
    requires q.Bool? && q.should != [] && d in ix.docs
    ensures d in MatchSet(ix, q) <==>
      && d in MatchSet(ix, q.(should := []))
      && SomeMatch(ix, q.should, q.minimumShouldMatch, d)
  {
    hide Matches, AllMatch, NoneMatches, CountMatching;
    BoolMatches(ix, q, d);
    BoolMatches(ix, q.(should := []), d);
    assert q.should[0..] == q.should;
    if CountMatching(ix, q.should, d) >= q.minimumShouldMatch {
      var all := CountedPositions(ix, q.should, d, 0);
      var some := Smaller(all, q.minimumShouldMatch);
      assert MatchingPositions(ix, q.should, d, some);
    } else {
      forall positions: set<nat> | MatchingPositions(ix, q.should, d, positions)
        ensures |positions| < q.minimumShouldMatch
      {
        PositionsCounted(ix, q.should, d, 0, positions);
      }
    }
  }

  // Searching

  /** Whatever the candidates, a search on a query with `must_not` returns what the query
      without the last of them matches, less what that one matches. */
  lemma SearchExcludes(ix: Index, must: seq<Query>, filter: seq<Query>, mustNot: seq<Query>, should: seq<Query>,
                       minimum: nat, x: Query)
    requires Contract(ix)
    ensures SearchDocs(ix, Bool(must, filter, mustNot + [x], should, minimum))
      == MatchSet(ix, Bool(must, filter, mustNot, should, minimum)) - MatchSet(ix, x)
  {
    hide Candidates, Matches, Contract, SearchDocs, MatchSet;
    var q := Bool(must, filter, mustNot + [x], should, minimum);
    assert !Exact(q);
    hide Exact;
    SearchIsRightOn(ix, q);
    MustNotLaw(ix, must, filter, mustNot, should, minimum, x);
  }

  /** No document matching a `must_not` clause is returned, on any index. */
  lemma NothingExcluded(ix: Index, q: Query, x: Query, d: nat)
    requires q.Bool? && x in q.mustNot && Matches(ix, x, d)
    ensures d !in SearchDocs(ix, q)
  {
    hide Candidates;
    assert !Exact(q);
    assert !Matches(ix, q, d);
  }

  // Candidates

  /** The candidates of a `bool` that has no direct intersection, document by document: in every
      set of a `must` or `filter` clause, and, where some of `should` is needed and all of it has
      candidates, in all of those sets if all are needed and in one of them otherwise. */
  lemma BoolCandidatesMean(ix: Index, q: Query, d: nat)
    requires q.Bool?
    requires (q.should == [] || AllRequired(q)) ==> FastPath(ix, RequiredClauses(q)).None?
    ensures var needed := q.should != [] && q.minimumShouldMatch > 0
        && forall m | m in q.should :: Candidates(ix, m).Some?;
      && (Candidates(ix, q).Some? <==> (needed || exists m | m in q.must + q.filter :: Candidates(ix, m).Some?))
      && (Candidates(ix, q).Some? ==> (d in Candidates(ix, q).value <==>
          && (forall m | m in q.must + q.filter && Candidates(ix, m).Some? :: d in Candidates(ix, m).value)
          && (needed ==>
              if q.minimumShouldMatch == |q.should| then forall m | m in q.should :: d in Candidates(ix, m).value
              else exists m | m in q.should :: d in Candidates(ix, m).value)))
  {
    hide FastPath;
    var sets := Resolved(ix, q.must) + Resolved(ix, q.filter) + ShouldSets(ix, q.should, q.minimumShouldMatch);
    assert Candidates(ix, q) == if sets == [] then None else Some(Meet(sets));
    hide Candidates, Resolved, Meet, ShouldSets;
    InResolved(ix, q.must, d);
    InResolved(ix, q.filter, d);
    InShouldSets(ix, q.should, q.minimumShouldMatch, d);
    var musts, filters, shoulds :=
      Resolved(ix, q.must), Resolved(ix, q.filter), ShouldSets(ix, q.should, q.minimumShouldMatch);
    assert forall s :: s in sets <==> s in musts || s in filters || s in shoulds;
    assert forall m :: m in q.must + q.filter <==> m in q.must || m in q.filter;
    if sets != [] {
      InMeet(sets, d);
    }
  }

  lemma InResolved(ix: Index, qs: seq<Query>, d: nat)
    ensures Resolved(ix, qs) == [] <==> forall q | q in qs :: Candidates(ix, q).None?
    ensures (forall s | s in Resolved(ix, qs) :: d in s)
      <==> forall q | q in qs && Candidates(ix, q).Some? :: d in Candidates(ix, q).value
  {
    hide Candidates, Resolved;
    ResolvedMembers(ix, qs);
    if Resolved(ix, qs) != [] {
      assert Resolved(ix, qs)[0] in Resolved(ix, qs);
    }
    forall q | q in qs && Candidates(ix, q).Some? ensures Candidates(ix, q).value in Resolved(ix, qs) {}
  }

  lemma InShouldSets(ix: Index, should: seq<Query>, minimum: nat, d: nat)
    ensures var needed := should != [] && minimum > 0 && forall m | m in should :: Candidates(ix, m).Some?;
      var sets := ShouldSets(ix, should, minimum);
      && (sets != [] <==> needed)
      && (needed ==> ((forall s | s in sets :: d in s) <==>
          if minimum == |should| then forall m | m in should :: d in Candidates(ix, m).value
          else exists m | m in should :: d in Candidates(ix, m).value))
  {
    hide Candidates, Resolved, Join;
    ResolvedMembers(ix, should);
    InResolved(ix, should, d);
    InJoin(Resolved(ix, should), d);
  }

  /** The parts of a query that can restrict it. */
  function Reached(q: Query): set<Query>
    decreases q, 1
  {
    {q} +
    match q
    case FunctionScore(inner) => Reached(inner)
    case Bool(must, filter, _, should, minimum) =>
      ReachedBy(must) + ReachedBy(filter) + if minimum == 0 then {} else ReachedBy(should)
    case _ => {}
  }

  function ReachedBy(qs: seq<Query>): set<Query>
    decreases qs, 0
  {
    if qs == [] then {} else Reached(qs[0]) + ReachedBy(qs[1..])
  }

  /** A part that candidates decide by themselves, if its own parts are. */
  predicate Plain(q: Query) {
    && !q.Prefix? && !q.Other?
    && (q.Bool? ==>
        q.mustNot == [] && (q.should == [] || q.minimumShouldMatch == 0 || q.minimumShouldMatch == |q.should|))
  }

  ghost predicate AllPlain(parts: set<Query>) {
    forall p | p in parts :: Plain(p)
  }

  lemma AllPlainUnion(a: set<Query>, b: set<Query>)
    ensures AllPlain(a + b) <==> AllPlain(a) && AllPlain(b)
  {
  }

  /** Filtering is skipped exactly for the queries all of whose restricting parts are plain. */
  lemma {:induction false} ExactShape(q: Query)
    ensures Exact(q) <==> AllPlain(Reached(q))
    decreases q, 1
  {
    assert AllPlain({}) && (AllPlain({q}) <==> Plain(q));
    hide AllPlain;
    match q
    case FunctionScore(inner) =>
      ExactShape(inner);
      AllPlainUnion({q}, Reached(inner));
    case Bool(must, filter, _, should, minimum) =>
      ExactShapes(must);
      ExactShapes(filter);
      ExactShapes(should);
      var last := if minimum == 0 then {} else ReachedBy(should);
      AllPlainUnion(ReachedBy(must), ReachedBy(filter));
      AllPlainUnion(ReachedBy(must) + ReachedBy(filter), last);
      AllPlainUnion({q}, ReachedBy(must) + ReachedBy(filter) + last);
    case _ =>
      AllPlainUnion({q}, {});
  }

  lemma {:induction false} ExactShapes(qs: seq<Query>)
    ensures (forall q | q in qs :: Exact(q)) <==> AllPlain(ReachedBy(qs))
    decreases qs, 0
  {
    assert AllPlain({});
    hide AllPlain, Exact;
    if qs != [] {
      ExactShape(qs[0]);
      ExactShapes(qs[1..]);
      AllPlainUnion(Reached(qs[0]), ReachedBy(qs[1..]));
      assert forall q :: q in qs <==> q == qs[0] || q in qs[1..];
    }
  }
}
