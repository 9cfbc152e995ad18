/** Candidate resolution from postings against per-document matching, over query trees. */
module CandidateSets {
  import opened Options

  datatype Operator = And | Or

  /** The queries, without the parts that only score. `Other` stands for every leaf that is
      never answered from postings. */
  datatype Query =
    | Term(field: string, text: string)
    | Match(field: string, text: string, operator: Operator)
    | MultiMatch(text: string, fields: seq<string>, operator: Operator)
    | Prefix(field: string, text: string)
    | Bool(must: seq<Query>, filter: seq<Query>, mustNot: seq<Query>, should: seq<Query>, minimumShouldMatch: nat)
    | FunctionScore(inner: Query)
    | Other(leaf: nat)

  /** How query text becomes tokens: the one token a `term` looks for, if any, and those a
      `match` looks for. */
  datatype Analysis = Analysis(term: (string, string) -> Option<string>, terms: (string, string) -> seq<string>)

  /** An index: the documents whose field holds a token, which is what matching looks at, and
      the postings lookups, some of which may decline. */
  datatype Index = Index(
    docs: set<nat>,
    analysis: Analysis,
    holders: (string, string) -> set<nat>,
    prefixDocs: (string, string) -> set<nat>,
    otherDocs: nat -> set<nat>,
    termPostings: (string, string) -> set<nat>,
    matchPostings: (string, string, Operator) -> set<nat>,
    prefixPostings: (string, string) -> Option<set<nat>>,
    leapfrog: seq<(string, string)> -> Option<set<nat>>,
    conjunction: seq<(string, string, Operator)> -> Option<set<nat>>)

  // Matching

  predicate TermMatches(ix: Index, field: string, text: string, d: nat) {
    match ix.analysis.term(field, text)
    case None => false
    case Some(token) => d in ix.holders(field, token)
  }

  /** Any of the tokens, or all of them; text without tokens matches nothing. */
  predicate FieldMatches(ix: Index, field: string, text: string, operator: Operator, d: nat) {
    var tokens := ix.analysis.terms(field, text);
    match operator
    case Or => exists token | token in tokens :: d in ix.holders(field, token)
    case And => tokens != [] && forall token | token in tokens :: d in ix.holders(field, token)
  }

  predicate Matches(ix: Index, q: Query, d: nat)
    decreases q, 1
  {
    match q
    case Term(field, text) => TermMatches(ix, field, text, d)
    case Match(field, text, operator) => FieldMatches(ix, field, text, operator, d)
    case MultiMatch(text, fields, operator) =>
      exists field | field in fields :: FieldMatches(ix, field, text, operator, d)
    case Prefix(field, text) => d in ix.prefixDocs(field, text)
    case Bool(must, filter, mustNot, should, minimum) =>
      && (forall q | q in must :: Matches(ix, q, d))
      && (forall q | q in filter :: Matches(ix, q, d))
      && !(exists q | q in mustNot :: Matches(ix, q, d))
      && (should == [] || CountMatching(ix, should, d) >= minimum)
    case FunctionScore(inner) => Matches(ix, inner, d)
    case Other(leaf) => d in ix.otherDocs(leaf)
  }

  function CountMatching(ix: Index, qs: seq<Query>, d: nat): (n: nat)
    ensures n <= |qs|
    decreases qs, 0
  {
    if qs == [] then 0
    else (if Matches(ix, qs[0], d) then 1 else 0) + CountMatching(ix, qs[1..], d)
  }

  function MatchSet(ix: Index, q: Query): set<nat> {
    set d | d in ix.docs && Matches(ix, q, d)
  }

  // Candidates

  predicate IsFlat(q: Query) {
    q.Term? || q.Match?
  }

  function Pairs(clauses: seq<Query>): seq<(string, string)>
    requires forall q | q in clauses :: IsFlat(q)
  {
    seq(|clauses|, i requires 0 <= i < |clauses| => assert IsFlat(clauses[i]); (clauses[i].field, clauses[i].text))
  }

  function MatchClauses(clauses: seq<Query>): seq<(string, string, Operator)>
    requires forall q | q in clauses :: q.Match?
  {
    seq(|clauses|, i requires 0 <= i < |clauses| =>
      assert clauses[i].Match?; (clauses[i].field, clauses[i].text, clauses[i].operator))
  }

  /** The direct intersection of a conjunction of at least two flat clauses, unless declined. */
  function FastPath(ix: Index, clauses: seq<Query>): Option<set<nat>> {
    if |clauses| < 2 || !(forall q | q in clauses :: IsFlat(q)) then None
    else
      var ids := ix.leapfrog(Pairs(clauses));
      if ids.Some? then ids
      else if forall q | q in clauses :: q.Match? then ix.conjunction(MatchClauses(clauses))
      else None
  }

  function Meet(sets: seq<set<nat>>): set<nat>
    requires sets != []
  {
    if |sets| == 1 then sets[0] else sets[0] * Meet(sets[1..])
  }

  function Join(sets: seq<set<nat>>): set<nat> {
    if sets == [] then {} else sets[0] + Join(sets[1..])
  }

  lemma {:induction false} InMeet(sets: seq<set<nat>>, d: nat)
    requires sets != []
    ensures d in Meet(sets) <==> forall s | s in sets :: d in s
  {
    if |sets| > 1 {
      InMeet(sets[1..], d);
      assert forall s :: s in sets <==> s == sets[0] || s in sets[1..];
    }
  }

  lemma {:induction false} InJoin(sets: seq<set<nat>>, d: nat)
    ensures d in Join(sets) <==> exists s | s in sets :: d in s
  {
    if sets != [] {
      InJoin(sets[1..], d);
      assert forall s :: s in sets <==> s == sets[0] || s in sets[1..];
    }
  }

  predicate AllRequired(q: Query)
    requires q.Bool?
  {
    q.should != [] && q.minimumShouldMatch == |q.should|
  }

  /** The clauses the direct intersection is tried on. */
  function RequiredClauses(q: Query): seq<Query>
    requires q.Bool?
  {
    q.must + q.filter + if AllRequired(q) then q.should else []
  }

  function Candidates(ix: Index, q: Query): Option<set<nat>>
    decreases q, 1
  {
    match q
    case Term(field, text) => Some(ix.termPostings(field, text))
    case Match(field, text, operator) => Some(ix.matchPostings(field, text, operator))
    case MultiMatch(text, fields, operator) =>
      Some(Join(seq(|fields|, i requires 0 <= i < |fields| => ix.matchPostings(fields[i], text, operator))))
    case Prefix(field, text) => ix.prefixPostings(field, text)
    case Bool(must, filter, mustNot, should, minimum) =>
      var fast := if should == [] || AllRequired(q) then FastPath(ix, RequiredClauses(q)) else None;
      if fast.Some? then fast
      else
        var sets := Resolved(ix, must) + Resolved(ix, filter) + ShouldSets(ix, should, minimum);
        if sets == [] then None else Some(Meet(sets))
    case FunctionScore(inner) => Candidates(ix, inner)
    case Other(_) => None
  }

  /** The candidate sets of the clauses that have one. */
  function Resolved(ix: Index, qs: seq<Query>): (r: seq<set<nat>>)
    ensures |r| <= |qs|
    decreases qs, 0
  {
    if qs == [] then []
    else (match Candidates(ix, qs[0]) case Some(s) => [s] case None => []) + Resolved(ix, qs[1..])
  }

  /** What `should` contributes: nothing when it is optional or any of its clauses has no
      candidates; each clause when all are required; their union otherwise. */
  function ShouldSets(ix: Index, should: seq<Query>, minimum: nat): seq<set<nat>>
    decreases should, 1
  {
    var sets := Resolved(ix, should);
    if should == [] || minimum == 0 || |sets| != |should| then []
    else if minimum == |should| then sets
    else [Join(sets)]
  }

  predicate Exact(q: Query)
    decreases q
  {
    match q
    case Term(_, _) => true
    case Match(_, _, _) => true
    case MultiMatch(_, _, _) => true
    case FunctionScore(inner) => Exact(inner)
    case Bool(must, filter, mustNot, should, minimum) =>
      && mustNot == []
      && (forall q | q in must :: Exact(q))
      && (forall q | q in filter :: Exact(q))
      && (should == [] || minimum == 0 || (minimum == |should| && forall q | q in should :: Exact(q)))
    case Prefix(_, _) => false
    case Other(_) => false
  }

  // What the index promises

  /** The leaf postings are the documents of the index that match the leaf; prefix postings miss
      no match; the two direct intersections, when they answer, answer the documents matching
      every clause. */
  ghost predicate Contract(ix: Index) {
    && (forall f, t, d :: d in ix.termPostings(f, t) <==> (d in ix.docs && TermMatches(ix, f, t, d)))
    && (forall f, t, o, d :: d in ix.matchPostings(f, t, o) <==> (d in ix.docs && FieldMatches(ix, f, t, o, d)))
    && (forall f, t :: ix.prefixPostings(f, t).Some? ==>
        ix.prefixDocs(f, t) <= ix.prefixPostings(f, t).value <= ix.docs)
    && (forall clauses: seq<Query> | FlatClauses(clauses) :: ix.leapfrog(Pairs(clauses)).Some? ==>
        IsIntersection(ix, ix.leapfrog(Pairs(clauses)).value, clauses))
    && (forall clauses: seq<Query> | AllMatches(clauses) :: ix.conjunction(MatchClauses(clauses)).Some? ==>
        IsIntersection(ix, ix.conjunction(MatchClauses(clauses)).value, clauses))
  }

  ghost predicate FlatClauses(clauses: seq<Query>) {
    forall q | q in clauses :: IsFlat(q)
  }

  ghost predicate AllMatches(clauses: seq<Query>) {
    forall q | q in clauses :: q.Match?
  }

  ghost predicate IsIntersection(ix: Index, ids: set<nat>, clauses: seq<Query>) {
    ids <= ix.docs && forall d :: d in ix.docs ==> (d in ids <==> forall q | q in clauses :: Matches(ix, q, d))
  }

  // Candidates miss no match

  lemma FastPathIsIntersection(ix: Index, clauses: seq<Query>)
    requires Contract(ix) && FastPath(ix, clauses).Some?
    ensures FlatClauses(clauses) && |clauses| >= 2 && IsIntersection(ix, FastPath(ix, clauses).value, clauses)
  {
    hide Matches;
    assert FlatClauses(clauses);
    if ix.leapfrog(Pairs(clauses)).None? {
      assert AllMatches(clauses);
    }
  }

  lemma {:induction false} CountIsAll(ix: Index, qs: seq<Query>, d: nat)
    ensures CountMatching(ix, qs, d) == |qs| <==> forall q | q in qs :: Matches(ix, q, d)
    ensures CountMatching(ix, qs, d) >= 1 <==> exists q | q in qs :: Matches(ix, q, d)
  {
    hide Matches;
    if qs != [] {
      CountIsAll(ix, qs[1..], d);
      assert CountMatching(ix, qs, d) == (if Matches(ix, qs[0], d) then 1 else 0) + CountMatching(ix, qs[1..], d);
      assert forall q :: q in qs <==> q == qs[0] || q in qs[1..];
    }
  }

  lemma {:induction false} ResolvedMembers(ix: Index, qs: seq<Query>)
    ensures forall s :: s in Resolved(ix, qs) <==> exists q | q in qs :: Candidates(ix, q) == Some(s)
    ensures |Resolved(ix, qs)| == |qs| <==> forall q | q in qs :: Candidates(ix, q).Some?
  {
    hide Candidates;
    if qs != [] {
      ResolvedMembers(ix, qs[1..]);
      assert Resolved(ix, qs)
          == (match Candidates(ix, qs[0]) case Some(s) => [s] case None => []) + Resolved(ix, qs[1..]);
      assert forall q :: q in qs <==> q == qs[0] || q in qs[1..];
    }
  }

  lemma TermPostings(ix: Index, field: string, text: string, d: nat)
    requires Contract(ix)
    ensures d in ix.termPostings(field, text) <==> (d in ix.docs && TermMatches(ix, field, text, d))
  {
    hide TermMatches, FieldMatches, FlatClauses, AllMatches, IsIntersection;
  }

  lemma MatchPostings(ix: Index, field: string, text: string, operator: Operator, d: nat)
    requires Contract(ix)
    ensures d in ix.matchPostings(field, text, operator)
      <==> (d in ix.docs && FieldMatches(ix, field, text, operator, d))
  {
    hide TermMatches, FieldMatches, FlatClauses, AllMatches, IsIntersection;
  }

  lemma PrefixPostings(ix: Index, field: string, text: string, d: nat)
    requires Contract(ix) && ix.prefixPostings(field, text).Some?
    ensures d in ix.prefixDocs(field, text) ==> d in ix.prefixPostings(field, text).value
    ensures d in ix.prefixPostings(field, text).value ==> d in ix.docs
  {
    hide TermMatches, FieldMatches, FlatClauses, AllMatches, IsIntersection;
  }

  lemma InMultiMatch(ix: Index, text: string, fields: seq<string>, operator: Operator, d: nat)
    requires Contract(ix)
    ensures d in Candidates(ix, MultiMatch(text, fields, operator)).value
      <==> (d in ix.docs && Matches(ix, MultiMatch(text, fields, operator), d))
  {
    hide Contract, FieldMatches;
    var sets := seq(|fields|, i requires 0 <= i < |fields| => ix.matchPostings(fields[i], text, operator));
    InJoin(sets, d);
    forall i | 0 <= i < |fields|
      ensures sets[i] in sets && (d in sets[i] <==> (d in ix.docs && FieldMatches(ix, fields[i], text, operator, d)))
    {
      MatchPostings(ix, fields[i], text, operator, d);
    }
    forall field | field in fields && d in ix.docs && FieldMatches(ix, field, text, operator, d)
      ensures d in Join(sets)
    {
      var i :| 0 <= i < |fields| && fields[i] == field;
      assert d in sets[i];
    }
  }

  lemma ShouldSetsHold(ix: Index, should: seq<Query>, minimum: nat, d: nat)
    requires should == [] || CountMatching(ix, should, d) >= minimum
    requires forall q | q in should && Candidates(ix, q).Some? && Matches(ix, q, d) :: d in Candidates(ix, q).value
    ensures forall s | s in ShouldSets(ix, should, minimum) :: d in s
  {
    hide Matches, Candidates;
    ResolvedMembers(ix, should);
    CountIsAll(ix, should, d);
    InJoin(Resolved(ix, should), d);
  }

  /** For every query tree, a candidate set that is returned contains every matching document. */
  lemma {:induction false} CandidatesAreSound(ix: Index, q: Query, d: nat)
    requires Contract(ix) && d in ix.docs
    requires Candidates(ix, q).Some? && Matches(ix, q, d)
    ensures d in Candidates(ix, q).value
    decreases q
  {
    hide Contract, TermMatches, FieldMatches;
    match q
    case Term(field, text) => TermPostings(ix, field, text, d);
    case Match(field, text, operator) => MatchPostings(ix, field, text, operator, d);
    case MultiMatch(text, fields, operator) => InMultiMatch(ix, text, fields, operator, d);
    case Prefix(field, text) => PrefixPostings(ix, field, text, d);
    case FunctionScore(inner) => CandidatesAreSound(ix, inner, d);
    case Other(_) =>
    case Bool(must, filter, mustNot, should, minimum) =>
      forall m | (m in must || m in filter || m in should) && Candidates(ix, m).Some? && Matches(ix, m, d)
        ensures d in Candidates(ix, m).value
      {
        CandidatesAreSound(ix, m, d);
      }
      BoolIsSound(ix, q, d);
  }

  lemma BoolIsSound(ix: Index, q: Query, d: nat)
    requires Contract(ix) && d in ix.docs && q.Bool?
    requires Candidates(ix, q).Some? && Matches(ix, q, d)
    requires forall m | (m in q.must || m in q.filter || m in q.should) && Candidates(ix, m).Some? && Matches(ix, m, d)
      :: d in Candidates(ix, m).value
    ensures d in Candidates(ix, q).value
  {
    hide Contract;
    CountIsAll(ix, q.should, d);
    if (q.should == [] || AllRequired(q)) && FastPath(ix, RequiredClauses(q)).Some? {
      FastPathIsIntersection(ix, RequiredClauses(q));
    } else {
      var sets := Resolved(ix, q.must) + Resolved(ix, q.filter) + ShouldSets(ix, q.should, q.minimumShouldMatch);
      ResolvedMembers(ix, q.must);
      ResolvedMembers(ix, q.filter);
      ShouldSetsHold(ix, q.should, q.minimumShouldMatch, d);
      InMeet(sets, d);
    }
  }

  // What an exact query requires, and what its candidates keep of it

  /** A token in a field: an indivisible condition on a document. */
  datatype Atom = Token(field: string, token: string)

  /** A clause holds of a document when one of its atoms does. */
  type Clause = set<Atom>

  ghost predicate AtomHolds(ix: Index, a: Atom, d: nat) {
    d in ix.holders(a.field, a.token)
  }

  ghost predicate ClauseHolds(ix: Index, c: Clause, d: nat) {
    exists a | a in c :: AtomHolds(ix, a, d)
  }

  ghost predicate AllHold(ix: Index, clauses: set<Clause>, d: nat) {
    forall c | c in clauses :: ClauseHolds(ix, c, d)
  }

  /** Clauses that all hold exactly when all of `a` or all of `b` do. */
  function Either(a: set<Clause>, b: set<Clause>): set<Clause> {
    set x, y | x in a && y in b :: x + y
  }

  function FieldClauses(an: Analysis, field: string, text: string, operator: Operator): set<Clause> {
    var tokens := an.terms(field, text);
    match operator
    case Or => {set token | token in tokens :: Token(field, token)}
    case And => if tokens == [] then {{}} else set token | token in tokens :: {Token(field, token)}
  }

  function AnyFieldClauses(an: Analysis, text: string, fields: seq<string>, operator: Operator): set<Clause> {
    if fields == [] then {{}}
    else Either(FieldClauses(an, fields[0], text, operator), AnyFieldClauses(an, text, fields[1..], operator))
  }

  /** A leaf as a conjunction of clauses. */
  function LeafClauses(an: Analysis, q: Query): set<Clause>
    requires q.Term? || q.Match? || q.MultiMatch?
  {
    match q
    case Term(field, text) => (match an.term(field, text) case None => {{}} case Some(token) => {{Token(field, token)}})
    case Match(field, text, operator) => FieldClauses(an, field, text, operator)
    case MultiMatch(text, fields, operator) => AnyFieldClauses(an, text, fields, operator)
  }

  /** The clauses a matching document must satisfy. */
  function Required(an: Analysis, q: Query): set<Clause>
    requires Exact(q)
    decreases q, 1
  {
    match q
    case FunctionScore(inner) => Required(an, inner)
    case Bool(must, filter, _, should, minimum) =>
      RequiredOf(an, must) + RequiredOf(an, filter)
      + if should == [] || minimum == 0 then {} else RequiredOf(an, should)
    case _ => LeafClauses(an, q)
  }

  function RequiredOf(an: Analysis, qs: seq<Query>): set<Clause>
    requires forall q | q in qs :: Exact(q)
    decreases qs, 0
  {
    if qs == [] then {} else Required(an, qs[0]) + RequiredOf(an, qs[1..])
  }

  /** Whether an exact query has candidates at all. */
  predicate Resolvable(q: Query)
    requires Exact(q)
    decreases q, 1
  {
    match q
    case FunctionScore(inner) => Resolvable(inner)
    case Bool(must, filter, _, should, minimum) =>
      (exists q | q in must :: Resolvable(q)) || (exists q | q in filter :: Resolvable(q))
      || (should != [] && minimum != 0 && forall q | q in should :: Resolvable(q))
    case _ => true
  }

  /** The clauses that candidate resolution does not drop. */
  function Kept(an: Analysis, q: Query): set<Clause>
    requires Exact(q)
    decreases q, 1
  {
    match q
    case FunctionScore(inner) => Kept(an, inner)
    case Bool(must, filter, _, should, minimum) =>
      KeptOf(an, must) + KeptOf(an, filter)
      + if should == [] || minimum == 0 || !(forall q | q in should :: Resolvable(q)) then {} else KeptOf(an, should)
    case _ => LeafClauses(an, q)
  }

  function KeptOf(an: Analysis, qs: seq<Query>): set<Clause>
    requires forall q | q in qs :: Exact(q)
    decreases qs, 0
  {
    if qs == [] then {} else (if Resolvable(qs[0]) then Kept(an, qs[0]) else {}) + KeptOf(an, qs[1..])
  }

  lemma AllHoldUnion(ix: Index, a: set<Clause>, b: set<Clause>, d: nat)
    ensures AllHold(ix, a + b, d) <==> AllHold(ix, a, d) && AllHold(ix, b, d)
  {
  }

  lemma EitherHolds(ix: Index, a: set<Clause>, b: set<Clause>, d: nat)
    ensures AllHold(ix, Either(a, b), d) <==> (AllHold(ix, a, d) || AllHold(ix, b, d))
  {
    hide AtomHolds, Either;
    forall x, y ensures ClauseHolds(ix, x + y, d) <==> (ClauseHolds(ix, x, d) || ClauseHolds(ix, y, d)) {
      UnionHolds(ix, x, y, d);
    }
    InEither(a, b);
    if !AllHold(ix, a, d) && !AllHold(ix, b, d) {
      var x :| x in a && !ClauseHolds(ix, x, d);
      var y :| y in b && !ClauseHolds(ix, y, d);
      assert x + y in Either(a, b);
    }
  }

  lemma InEither(a: set<Clause>, b: set<Clause>)
    ensures forall x, y :: x in a && y in b ==> x + y in Either(a, b)
    ensures forall c :: c in Either(a, b) ==> exists x, y :: x in a && y in b && c == x + y
  {
  }

  lemma UnionHolds(ix: Index, x: Clause, y: Clause, d: nat)
    ensures ClauseHolds(ix, x + y, d) <==> (ClauseHolds(ix, x, d) || ClauseHolds(ix, y, d))
  {
    hide AtomHolds;
    if ClauseHolds(ix, x, d) {
      var a :| a in x && AtomHolds(ix, a, d);
      assert a in x + y;
    }
    if ClauseHolds(ix, y, d) {
      var a :| a in y && AtomHolds(ix, a, d);
      assert a in x + y;
    }
  }

  lemma FieldClausesHold(ix: Index, field: string, text: string, operator: Operator, d: nat)
    ensures AllHold(ix, FieldClauses(ix.analysis, field, text, operator), d)
      <==> FieldMatches(ix, field, text, operator, d)
  {
    var tokens := ix.analysis.terms(field, text);
    match operator
    case Or =>
      var c := set token | token in tokens :: Token(field, token);
      OneHolds(ix, c, d);
      forall token | token in tokens ensures Token(field, token) in c {}
      assert forall token | token in tokens :: AtomHolds(ix, Token(field, token), d) <==> d in ix.holders(field, token);
    case And =>
      if tokens == [] {
        OneHolds(ix, {}, d);
      } else {
        forall token | token in tokens
          ensures ClauseHolds(ix, {Token(field, token)}, d) <==> d in ix.holders(field, token)
        {
          AtomClause(ix, Token(field, token), d);
        }
      }
  }

  lemma OneHolds(ix: Index, c: Clause, d: nat)
    ensures AllHold(ix, {c}, d) <==> ClauseHolds(ix, c, d)
  {
  }

  lemma AtomClause(ix: Index, a: Atom, d: nat)
    ensures ClauseHolds(ix, {a}, d) <==> AtomHolds(ix, a, d)
  {
    assert a in {a};
  }

  lemma {:induction false} AnyFieldClausesHold(ix: Index, text: string, fields: seq<string>, operator: Operator, d: nat)
    ensures AllHold(ix, AnyFieldClauses(ix.analysis, text, fields, operator), d)
      <==> exists field | field in fields :: FieldMatches(ix, field, text, operator, d)
  {
    hide AllHold, FieldMatches, FieldClauses, Either;
    if fields == [] {
      OneHolds(ix, {}, d);
    } else {
      FieldClausesHold(ix, fields[0], text, operator, d);
      AnyFieldClausesHold(ix, text, fields[1..], operator, d);
      EitherHolds(ix, FieldClauses(ix.analysis, fields[0], text, operator),
                  AnyFieldClauses(ix.analysis, text, fields[1..], operator), d);
      assert forall field :: field in fields <==> field == fields[0] || field in fields[1..];
    }
  }

  lemma LeafHolds(ix: Index, q: Query, d: nat)
    requires q.Term? || q.Match? || q.MultiMatch?
    ensures AllHold(ix, LeafClauses(ix.analysis, q), d) <==> Matches(ix, q, d)
  {
    hide AllHold, FieldClauses, AnyFieldClauses, FieldMatches;
    match q
    case Term(field, text) =>
      match ix.analysis.term(field, text) {
        case None => OneHolds(ix, {}, d);
        case Some(token) =>
          OneHolds(ix, {Token(field, token)}, d);
          AtomClause(ix, Token(field, token), d);
      }
    case Match(field, text, operator) => FieldClausesHold(ix, field, text, operator, d);
    case MultiMatch(text, fields, operator) => AnyFieldClausesHold(ix, text, fields, operator, d);
  }

  lemma LeafCandidates(ix: Index, q: Query, d: nat)
    requires Contract(ix) && (q.Term? || q.Match? || q.MultiMatch?)
    ensures Candidates(ix, q).Some? && (d in Candidates(ix, q).value <==> (d in ix.docs && Matches(ix, q, d)))
  {
    hide Contract, FieldMatches, TermMatches;
    match q
    case Term(field, text) => TermPostings(ix, field, text, d);
    case Match(field, text, operator) => MatchPostings(ix, field, text, operator, d);
    case MultiMatch(text, fields, operator) => InMultiMatch(ix, text, fields, operator, d);
  }

  /** An exact query is a conjunction: it matches the documents satisfying all it requires. */
  lemma {:induction false} ExactMatches(ix: Index, q: Query, d: nat)
    requires Exact(q)
    ensures Matches(ix, q, d) <==> AllHold(ix, Required(ix.analysis, q), d)
    decreases q, 1
  {
    hide AllHold;
    match q
    case FunctionScore(inner) => ExactMatches(ix, inner, d);
    case Bool(must, filter, mustNot, should, minimum) =>
      ExactMatchesAll(ix, must, d);
      ExactMatchesAll(ix, filter, d);
      AllHoldUnion(ix, RequiredOf(ix.analysis, must), RequiredOf(ix.analysis, filter), d);
      CountIsAll(ix, should, d);
      if should == [] || minimum == 0 {
        var both := RequiredOf(ix.analysis, must) + RequiredOf(ix.analysis, filter);
        assert both + {} == both;
      } else {
        ExactMatchesAll(ix, should, d);
        AllHoldUnion(ix, RequiredOf(ix.analysis, must) + RequiredOf(ix.analysis, filter),
                     RequiredOf(ix.analysis, should), d);
      }
    case _ => LeafHolds(ix, q, d);
  }

  lemma {:induction false} ExactMatchesAll(ix: Index, qs: seq<Query>, d: nat)
    requires forall q | q in qs :: Exact(q)
    ensures (forall q | q in qs :: Matches(ix, q, d)) <==> AllHold(ix, RequiredOf(ix.analysis, qs), d)
    decreases qs, 0
  {
    hide Matches;
    if qs != [] {
      ExactMatches(ix, qs[0], d);
      ExactMatchesAll(ix, qs[1..], d);
      AllHoldUnion(ix, Required(ix.analysis, qs[0]), RequiredOf(ix.analysis, qs[1..]), d);
      assert forall q :: q in qs <==> q == qs[0] || q in qs[1..];
    }
  }

  lemma {:induction false} FlatIsKept(an: Analysis, qs: seq<Query>)
    requires forall q | q in qs :: IsFlat(q)
    ensures forall q | q in qs :: Exact(q) && Resolvable(q)
    ensures KeptOf(an, qs) == RequiredOf(an, qs)
  {
    if qs != [] {
      FlatIsKept(an, qs[1..]);
      assert IsFlat(qs[0]) && Kept(an, qs[0]) == Required(an, qs[0]);
      assert forall q :: q in qs <==> q == qs[0] || q in qs[1..];
    }
  }

  lemma {:induction false} ExactResolvedAll(ix: Index, qs: seq<Query>, d: nat)
    requires Contract(ix) && d in ix.docs && forall q | q in qs :: Exact(q)
    ensures (forall s | s in Resolved(ix, qs) :: d in s) <==> AllHold(ix, KeptOf(ix.analysis, qs), d)
    ensures Resolved(ix, qs) == [] <==> forall q | q in qs :: !Resolvable(q)
    ensures |Resolved(ix, qs)| == |qs| <==> forall q | q in qs :: Resolvable(q)
    decreases qs, 0
  {
    hide Contract, AllHold, Candidates, Kept, Resolvable;
    if qs == [] {
      assert AllHold(ix, {}, d) by { NothingToHold(ix, d); }
    } else {
      ExactCandidates(ix, qs[0], d);
      ExactResolvedAll(ix, qs[1..], d);
      AllHoldUnion(ix, if Resolvable(qs[0]) then Kept(ix.analysis, qs[0]) else {}, KeptOf(ix.analysis, qs[1..]), d);
      NothingToHold(ix, d);
      assert Resolved(ix, qs)
          == (match Candidates(ix, qs[0]) case Some(s) => [s] case None => []) + Resolved(ix, qs[1..]);
      assert forall q :: q in qs <==> q == qs[0] || q in qs[1..];
    }
  }

  lemma NothingToHold(ix: Index, d: nat)
    ensures AllHold(ix, {}, d)
  {
  }

  /** An exact query has candidates exactly when it is resolvable, and they are the documents
      satisfying what resolution keeps of it. */
  lemma {:induction false} ExactCandidates(ix: Index, q: Query, d: nat)
    requires Contract(ix) && d in ix.docs && Exact(q)
    ensures Candidates(ix, q).Some? <==> Resolvable(q)
    ensures Candidates(ix, q).Some? ==> (d in Candidates(ix, q).value <==> AllHold(ix, Kept(ix.analysis, q), d))
    decreases q, 1
  {
    hide Contract, AllHold, Matches, FastPath, Pairs, Candidates, Resolvable, Kept, KeptOf, Resolved, Exact;
    match q
    case FunctionScore(inner) =>
      ScoreUnfolds(ix, q);
      ExactCandidates(ix, inner, d);
    case Bool(must, filter, mustNot, should, minimum) =>
      BoolParts(q);
      if (should == [] || AllRequired(q)) && FastPath(ix, RequiredClauses(q)).Some? {
        ExactFastPath(ix, q, d);
      } else {
        ExactResolvedAll(ix, must, d);
        ExactResolvedAll(ix, filter, d);
        if should != [] && minimum != 0 {
          ExactResolvedAll(ix, should, d);
        }
        assert ListResolved(ix, must, d) && ListResolved(ix, filter, d);
        ExactSlowPath(ix, q, d);
      }
    case _ =>
      LeafUnfolds(ix.analysis, q);
      LeafHolds(ix, q, d);
      LeafCandidates(ix, q, d);
  }

  lemma ScoreUnfolds(ix: Index, q: Query)
    requires q.FunctionScore? && Exact(q)
    ensures Exact(q.inner) && Candidates(ix, q) == Candidates(ix, q.inner)
    ensures Resolvable(q) == Resolvable(q.inner) && Kept(ix.analysis, q) == Kept(ix.analysis, q.inner)
  {
  }

  lemma LeafUnfolds(an: Analysis, q: Query)
    requires Exact(q) && !q.FunctionScore? && !q.Bool?
    ensures (q.Term? || q.Match? || q.MultiMatch?) && Resolvable(q) && Kept(an, q) == LeafClauses(an, q)
  {
  }

  lemma BoolParts(q: Query)
    requires q.Bool? && Exact(q)
    ensures (forall m | m in q.must :: Exact(m)) && (forall m | m in q.filter :: Exact(m))
    ensures q.should != [] && q.minimumShouldMatch != 0 ==> forall m | m in q.should :: Exact(m)
  {
  }

  /** A `bool` whose clauses are all required matches what all of them match. */
  lemma RequiredAllMatch(ix: Index, q: Query, d: nat)
    requires q.Bool? && Exact(q) && (q.should == [] || AllRequired(q))
    ensures Matches(ix, q, d) <==> forall m | m in RequiredClauses(q) :: Matches(ix, m, d)
  {
    CountIsAll(ix, q.should, d);
    var clauses := RequiredClauses(q);
    assert forall m :: m in clauses <==> (m in q.must || m in q.filter || (AllRequired(q) && m in q.should));
  }

  lemma FlatBoolIsKept(an: Analysis, q: Query)
    requires q.Bool? && Exact(q) && (q.should == [] || AllRequired(q)) && |RequiredClauses(q)| >= 2
    requires forall m | m in RequiredClauses(q) :: IsFlat(m)
    ensures Resolvable(q) && Kept(an, q) == Required(an, q)
  {
    hide KeptOf, RequiredOf, IsFlat;
    var clauses := RequiredClauses(q);
    assert forall m :: m in q.must || m in q.filter ==> m in clauses;
    assert AllRequired(q) ==> forall m :: m in q.should ==> m in clauses;
    FlatIsKept(an, q.must);
    FlatIsKept(an, q.filter);
    if AllRequired(q) {
      FlatIsKept(an, q.should);
    }
    SomeClause(q);
  }

  lemma ExactFastPath(ix: Index, q: Query, d: nat)
    requires Contract(ix) && d in ix.docs && Exact(q) && q.Bool?
    requires (q.should == [] || AllRequired(q)) && FastPath(ix, RequiredClauses(q)).Some?
    ensures Resolvable(q) && Candidates(ix, q).Some?
    ensures d in Candidates(ix, q).value <==> AllHold(ix, Kept(ix.analysis, q), d)
  {
    hide Contract, AllHold, FastPath, Matches, Pairs, Kept, Required, Resolvable, RequiredClauses, Exact;
    FastPathIsIntersection(ix, RequiredClauses(q));
    RequiredAllMatch(ix, q, d);
    FlatBoolIsKept(ix.analysis, q);
    ExactMatches(ix, q, d);
  }

  lemma SomeClause(q: Query)
    requires q.Bool? && |RequiredClauses(q)| >= 2
    ensures (exists m :: m in q.must) || (exists m :: m in q.filter) || (AllRequired(q) && q.should != [])
  {
    if q.must != [] {
      assert q.must[0] in q.must;
    } else if q.filter != [] {
      assert q.filter[0] in q.filter;
    }
  }

  /** What resolution keeps of `should`. */
  function KeptShould(an: Analysis, q: Query): set<Clause>
    requires Exact(q) && q.Bool?
  {
    if q.should == [] || q.minimumShouldMatch == 0 || !(forall m | m in q.should :: Resolvable(m)) then {}
    else KeptOf(an, q.should)
  }

  /** The candidate sets of a list of exact clauses say what is kept of them. */
  ghost predicate ListResolved(ix: Index, qs: seq<Query>, d: nat)
    requires forall q | q in qs :: Exact(q)
  {
    && ((forall s | s in Resolved(ix, qs) :: d in s) <==> AllHold(ix, KeptOf(ix.analysis, qs), d))
    && (Resolved(ix, qs) == [] <==> forall m | m in qs :: !Resolvable(m))
    && (|Resolved(ix, qs)| == |qs| <==> forall m | m in qs :: Resolvable(m))
  }

  lemma ShouldSetsKept(ix: Index, q: Query, d: nat)
    requires Exact(q) && q.Bool?
    requires q.should != [] && q.minimumShouldMatch != 0 ==> ListResolved(ix, q.should, d)
    ensures var sets := ShouldSets(ix, q.should, q.minimumShouldMatch);
      && ((forall s | s in sets :: d in s) <==> AllHold(ix, KeptShould(ix.analysis, q), d))
      && (sets == [] <==> !(q.should != [] && q.minimumShouldMatch != 0 && forall m | m in q.should :: Resolvable(m)))
  {
    hide AllHold, Resolvable, Exact, KeptOf, Resolved;
    NothingToHold(ix, d);
    if q.should != [] && q.minimumShouldMatch != 0 {
      AllRequiredIfExact(q);
    }
  }

  lemma AllRequiredIfExact(q: Query)
    requires Exact(q) && q.Bool? && q.should != [] && q.minimumShouldMatch != 0
    ensures q.minimumShouldMatch == |q.should| && forall m | m in q.should :: Exact(m)
  {
  }

  lemma ExactSlowPath(ix: Index, q: Query, d: nat)
    requires Contract(ix) && d in ix.docs && Exact(q) && q.Bool?
    requires !((q.should == [] || AllRequired(q)) && FastPath(ix, RequiredClauses(q)).Some?)
    requires ListResolved(ix, q.must, d) && ListResolved(ix, q.filter, d)
    requires q.should != [] && q.minimumShouldMatch != 0 ==> ListResolved(ix, q.should, d)
    ensures Candidates(ix, q).Some? <==> Resolvable(q)
    ensures Candidates(ix, q).Some? ==> (d in Candidates(ix, q).value <==> AllHold(ix, Kept(ix.analysis, q), d))
  {
    hide Contract, AllHold, FastPath, RequiredClauses, ShouldSets, Resolved;
    var must, filter := Resolved(ix, q.must), Resolved(ix, q.filter);
    var should := ShouldSets(ix, q.should, q.minimumShouldMatch);
    var sets := must + filter + should;
    ShouldSetsKept(ix, q, d);
    assert Kept(ix.analysis, q)
        == KeptOf(ix.analysis, q.must) + KeptOf(ix.analysis, q.filter) + KeptShould(ix.analysis, q);
    AllHoldUnion(ix, KeptOf(ix.analysis, q.must), KeptOf(ix.analysis, q.filter), d);
    AllHoldUnion(ix, KeptOf(ix.analysis, q.must) + KeptOf(ix.analysis, q.filter), KeptShould(ix.analysis, q), d);
    assert forall s :: s in sets <==> s in must || s in filter || s in should;
    if sets != [] {
      InMeet(sets, d);
    }
  }

  // Exactly when the exactness test is right

  /** Every required clause is implied by one that is kept. A caller can check it on the query
      and the analysis of its texts alone: it looks at no postings. */
  predicate Covered(an: Analysis, q: Query)
    requires Exact(q)
  {
    forall c | c in Required(an, q) :: exists k | k in Kept(an, q) :: k <= c
  }

  lemma {:induction false} CandidatesInDocs(ix: Index, q: Query, d: nat)
    requires Contract(ix) && Candidates(ix, q).Some? && d in Candidates(ix, q).value
    ensures d in ix.docs
    decreases q
  {
    hide Contract;
    match q
    case Term(_, _) => LeafCandidates(ix, q, d);
    case Match(_, _, _) => LeafCandidates(ix, q, d);
    case MultiMatch(_, _, _) => LeafCandidates(ix, q, d);
    case Prefix(field, text) => PrefixPostings(ix, field, text, d);
    case FunctionScore(inner) => CandidatesInDocs(ix, inner, d);
    case Bool(must, filter, mustNot, should, minimum) =>
      if (should == [] || AllRequired(q)) && FastPath(ix, RequiredClauses(q)).Some? {
        FastPathIsIntersection(ix, RequiredClauses(q));
      } else {
        var m := SourceOfCandidate(ix, q, d);
        CandidatesInDocs(ix, m, d);
      }
  }

  /** A clause of the `bool` that the candidate came from. */
  lemma SourceOfCandidate(ix: Index, q: Query, d: nat) returns (m: Query)
    requires q.Bool? && Candidates(ix, q).Some? && d in Candidates(ix, q).value
    requires !((q.should == [] || AllRequired(q)) && FastPath(ix, RequiredClauses(q)).Some?)
    ensures m in q.must || m in q.filter || m in q.should
    ensures Candidates(ix, m).Some? && d in Candidates(ix, m).value
  {
    hide FastPath;
    var sets := Resolved(ix, q.must) + Resolved(ix, q.filter) + ShouldSets(ix, q.should, q.minimumShouldMatch);
    InMeet(sets, d);
    var s := sets[0];
    assert s in sets;
    hide Candidates, Resolved;
    ResolvedMembers(ix, q.must);
    ResolvedMembers(ix, q.filter);
    ResolvedMembers(ix, q.should);
    if s in Resolved(ix, q.must) {
      m :| m in q.must && Candidates(ix, m) == Some(s);
    } else if s in Resolved(ix, q.filter) {
      m :| m in q.filter && Candidates(ix, m) == Some(s);
    } else {
      InJoin(Resolved(ix, q.should), d);
      var t :| t in Resolved(ix, q.should) && d in t;
      m :| m in q.should && Candidates(ix, m) == Some(t);
    }
  }

  lemma CoveredHolds(ix: Index, q: Query, d: nat)
    requires Exact(q) && Covered(ix.analysis, q) && AllHold(ix, Kept(ix.analysis, q), d)
    ensures AllHold(ix, Required(ix.analysis, q), d)
  {
    hide Required, Kept, Exact, AtomHolds;
    forall c | c in Required(ix.analysis, q) ensures ClauseHolds(ix, c, d) {
      var k :| k in Kept(ix.analysis, q) && k <= c;
      var a :| a in k && AtomHolds(ix, a, d);
      assert a in c;
    }
  }

  /** Where every required clause is covered, the candidates are the matching documents. */
  lemma CoveredIsExact(ix: Index, q: Query)
    requires Contract(ix) && Exact(q) && Covered(ix.analysis, q) && Candidates(ix, q).Some?
    ensures Candidates(ix, q).value == MatchSet(ix, q)
  {
    hide Contract, AllHold, Kept, Required, Exact, Resolvable, Covered, Candidates, Matches;
    var ids := Candidates(ix, q).value;
    forall d: nat ensures d in ids <==> d in MatchSet(ix, q) {
      if d in ids {
        CandidatesInDocs(ix, q, d);
        ExactCandidates(ix, q, d);
        CoveredHolds(ix, q, d);
        ExactMatches(ix, q, d);
      } else if d in MatchSet(ix, q) {
        CandidatesAreSound(ix, q, d);
      }
    }
    assert ids == MatchSet(ix, q);
  }

  /** The index of one document, 0, that holds every token but those of `c`; its postings are
      what they should be. */
  function CounterIndex(an: Analysis, c: Clause): Index {
    var bare := Index({0}, an, (f, t) => if Token(f, t) in c then {} else {0}, (f, t) => {}, leaf => {},
      (f, t) => {}, (f, t, o) => {}, (f, t) => None, pairs => None, clauses => None);
    bare.(termPostings := (f, t) => if TermMatches(bare, f, t, 0) then {0} else {},
          matchPostings := (f, t, o) => if FieldMatches(bare, f, t, o, 0) then {0} else {})
  }

  lemma CounterIndexIsIndex(an: Analysis, c: Clause)
    ensures Contract(CounterIndex(an, c))
    ensures forall a :: AtomHolds(CounterIndex(an, c), a, 0) <==> a !in c
  {
  }

  /** A required clause that is not covered makes a document that is a candidate of the exact
      query without matching it. */
  lemma UncoveredIsWrong(an: Analysis, q: Query, c: Clause)
    requires Exact(q) && Resolvable(q)
    requires c in Required(an, q) && forall k | k in Kept(an, q) :: !(k <= c)
    ensures var ix := CounterIndex(an, c);
      Contract(ix) && ix.analysis == an && Candidates(ix, q).Some? && 0 in Candidates(ix, q).value && !Matches(ix, q, 0)
  {
    hide Candidates, Matches, Required, Kept, Exact, Resolvable, Contract, AtomHolds;
    var ix := CounterIndex(an, c);
    CounterIndexIsIndex(an, c);
    ExactCandidates(ix, q, 0);
    ExactMatches(ix, q, 0);
    forall k | k in Kept(an, q) ensures ClauseHolds(ix, k, 0) {
      var a :| a in k && a !in c;
      assert AtomHolds(ix, a, 0);
    }
    assert AllHold(ix, Kept(an, q), 0);
    assert !ClauseHolds(ix, c, 0);
  }

  /** What a search on a `bool` query returns: the candidates, filtered by `Matches` unless the
      query counts as exact; a scan of all documents when there are none. */
  function SearchDocs(ix: Index, q: Query): set<nat> {
    match Candidates(ix, q)
    case None => MatchSet(ix, q)
    case Some(ids) => if Exact(q) then ids else set d | d in ids && Matches(ix, q, d)
  }

  /** Under a given analysis of texts, skipping the filter is right on every index exactly for
      the queries whose required clauses are all covered. */
  lemma SearchIsRight(an: Analysis, q: Query)
    ensures (forall ix: Index | Contract(ix) && ix.analysis == an :: SearchDocs(ix, q) == MatchSet(ix, q))
      <==> (Exact(q) && Resolvable(q) ==> Covered(an, q))
  {
    hide Candidates, Matches, Required, Kept, Contract, Exact, Resolvable, CounterIndex;
    if Exact(q) && Resolvable(q) && !Covered(an, q) {
      var c :| c in Required(an, q) && forall k | k in Kept(an, q) :: !(k <= c);
      UncoveredIsWrong(an, q, c);
      assert 0 in SearchDocs(CounterIndex(an, c), q) && 0 !in MatchSet(CounterIndex(an, c), q);
    } else {
      forall ix: Index | Contract(ix) && ix.analysis == an ensures SearchDocs(ix, q) == MatchSet(ix, q) {
        SearchIsRightOn(ix, q);
      }
    }
  }

  lemma SearchIsRightOn(ix: Index, q: Query)
    requires Contract(ix) && (Exact(q) && Resolvable(q) ==> Covered(ix.analysis, q))
    ensures SearchDocs(ix, q) == MatchSet(ix, q)
  {
    hide Candidates, Matches, Required, Kept, Contract, Exact, Resolvable, Covered;
    if Candidates(ix, q).Some? {
      if Exact(q) && Covered(ix.analysis, q) {
        CoveredIsExact(ix, q);
      } else {
        forall d: nat ensures d in SearchDocs(ix, q) <==> d in MatchSet(ix, q) {
          if d in Candidates(ix, q).value {
            CandidatesInDocs(ix, q, d);
            if Exact(q) { ExactCandidates(ix, q, d); }
          }
          if d in MatchSet(ix, q) {
            CandidatesAreSound(ix, q, d);
          }
        }
      }
    }
  }

  /** Every nested `bool` that restricts has a `must` or `filter` clause, or a non-empty
      `should` of which some are required. */
  predicate Grounded(q: Query)
    decreases q
  {
    match q
    case FunctionScore(inner) => Grounded(inner)
    case Bool(must, filter, _, should, minimum) =>
      && (must != [] || filter != [] || (should != [] && minimum >= 1))
      && (forall q | q in must :: Grounded(q))
      && (forall q | q in filter :: Grounded(q))
      && (minimum >= 1 ==> forall q | q in should :: Grounded(q))
    case _ => true
  }

  /** On such queries nothing is dropped, so the exactness test is right. */
  lemma {:induction false} GroundedIsCovered(an: Analysis, q: Query)
    requires Exact(q) && Grounded(q)
    ensures Resolvable(q) && Kept(an, q) == Required(an, q) && Covered(an, q)
    decreases q, 1
  {
    hide Exact, Grounded, Resolvable, Kept, Required, Covered, KeptOf, RequiredOf;
    GroundedParts(an, q);
    match q
    case FunctionScore(inner) => GroundedIsCovered(an, inner);
    case Bool(must, filter, mustNot, should, minimum) =>
      GroundedAll(an, must);
      GroundedAll(an, filter);
      if minimum >= 1 && should != [] {
        GroundedAll(an, should);
      }
      GroundedBool(an, q);
    case _ =>
  }

  lemma GroundedParts(an: Analysis, q: Query)
    requires Exact(q) && Grounded(q)
    ensures q.FunctionScore? ==> Exact(q.inner) && Grounded(q.inner) && Resolvable(q) == Resolvable(q.inner)
    ensures q.FunctionScore? ==> Kept(an, q) == Kept(an, q.inner) && Required(an, q) == Required(an, q.inner)
    ensures q.FunctionScore? ==> Covered(an, q) == Covered(an, q.inner)
    ensures q.Bool? ==>
      && (forall m | m in q.must || m in q.filter :: Exact(m) && Grounded(m))
      && (q.minimumShouldMatch >= 1 && q.should != [] ==> forall m | m in q.should :: Exact(m) && Grounded(m))
    ensures !q.Bool? && !q.FunctionScore? ==> Resolvable(q) && Kept(an, q) == Required(an, q) && Covered(an, q)
  {
  }

  lemma GroundedBool(an: Analysis, q: Query)
    requires Exact(q) && Grounded(q) && q.Bool?
    requires (forall m | m in q.must :: Resolvable(m)) && KeptOf(an, q.must) == RequiredOf(an, q.must)
    requires (forall m | m in q.filter :: Resolvable(m)) && KeptOf(an, q.filter) == RequiredOf(an, q.filter)
    requires q.minimumShouldMatch >= 1 && q.should != [] ==>
      (forall m | m in q.should :: Exact(m) && Resolvable(m)) && KeptOf(an, q.should) == RequiredOf(an, q.should)
    ensures Resolvable(q) && Kept(an, q) == Required(an, q) && Covered(an, q)
  {
    hide KeptOf, RequiredOf;
    assert q.must != [] ==> q.must[0] in q.must;
    assert q.filter != [] ==> q.filter[0] in q.filter;
    assert Kept(an, q) == Required(an, q);
    hide Exact, Kept, Required;
  }

  lemma {:induction false} GroundedAll(an: Analysis, qs: seq<Query>)
    requires forall q | q in qs :: Exact(q) && Grounded(q)
    ensures (forall q | q in qs :: Resolvable(q)) && KeptOf(an, qs) == RequiredOf(an, qs)
    decreases qs, 0
  {
    hide Exact, Grounded, Resolvable, Kept, Required;
    if qs != [] {
      GroundedIsCovered(an, qs[0]);
      GroundedAll(an, qs[1..]);
      assert forall q :: q in qs <==> q == qs[0] || q in qs[1..];
    }
  }

  const OPTIONAL_ONLY := Bool([], [], [], [Term("x", "1")], 0)
  const DROPPED := Beside(Term("b", "1"), Term("a", "1"))

  /** Every text is one token. */
  const PLAIN := Analysis((field, text) => Some(text), (field, text) => [text])

  lemma OptionalOnlyHasNoCandidates(an: Analysis)
    ensures Exact(OPTIONAL_ONLY) && !Resolvable(OPTIONAL_ONLY)
    ensures Required(an, OPTIONAL_ONLY) == {}
  {
  }

  /** An all-required `should` around it is dropped, whatever the other clause. */
  lemma AllRequiredIsDropped(an: Analysis, leaf: Query)
    requires leaf.Term? || leaf.Match?
    ensures var q := Bool([], [], [], [OPTIONAL_ONLY, leaf], 2);
      Exact(q) && !Resolvable(q) && Required(an, q) == LeafClauses(an, leaf)
  {
    hide LeafClauses;
    var q := Bool([], [], [], [OPTIONAL_ONLY, leaf], 2);
    OptionalOnlyHasNoCandidates(an);
    assert OPTIONAL_ONLY in q.should;
    assert [OPTIONAL_ONLY, leaf][1..] == [leaf];
    assert RequiredOf(an, [leaf]) == LeafClauses(an, leaf) + {};
    assert RequiredOf(an, [OPTIONAL_ONLY, leaf]) == {} + (LeafClauses(an, leaf) + {});
  }

  /** A leaf beside such a `bool`: the leaf is kept, the other is not. */
  function Beside(kept: Query, dropped: Query): Query {
    Bool([kept, Bool([], [], [], [OPTIONAL_ONLY, dropped], 2)], [], [], [], 0)
  }

  lemma BesideClauses(an: Analysis, kept: Query, dropped: Query)
    requires (kept.Term? || kept.Match?) && (dropped.Term? || dropped.Match?)
    ensures var q := Beside(kept, dropped);
      && Exact(q) && Resolvable(q)
      && Required(an, q) == LeafClauses(an, kept) + LeafClauses(an, dropped)
      && Kept(an, q) == LeafClauses(an, kept)
  {
    hide LeafClauses;
    var q, inner := Beside(kept, dropped), Bool([], [], [], [OPTIONAL_ONLY, dropped], 2);
    AllRequiredIsDropped(an, dropped);
    assert q.must == [kept, inner] && kept in q.must;
    assert [kept, inner][1..] == [inner];
    assert RequiredOf(an, [inner]) == Required(an, inner) + {};
    assert KeptOf(an, [inner]) == {};
    assert RequiredOf(an, [kept, inner]) == LeafClauses(an, kept) + RequiredOf(an, [inner]);
    assert KeptOf(an, [kept, inner]) == LeafClauses(an, kept) + {};
    OnlyMust(an, q);
  }

  lemma OnlyMust(an: Analysis, q: Query)
    requires q.Bool? && Exact(q) && q.filter == [] && q.should == []
    ensures Required(an, q) == RequiredOf(an, q.must) && Kept(an, q) == KeptOf(an, q.must)
  {
  }

  /** A query that counts as exact and is not: the inner `bool` has only an optional `should`,
      so it has no candidates, so the whole all-required outer `should` is dropped. */
  lemma DroppedShould()
    ensures Exact(DROPPED) && Resolvable(DROPPED) && !Covered(PLAIN, DROPPED)
    ensures var ix := CounterIndex(PLAIN, {Token("a", "1")});
      Contract(ix) && 0 in SearchDocs(ix, DROPPED) && 0 !in MatchSet(ix, DROPPED)
  {
    hide Candidates, Matches, Contract, Exact, Resolvable, Kept, Required, CounterIndex;
    BesideClauses(PLAIN, Term("b", "1"), Term("a", "1"));
    var c := {Token("a", "1")};
    assert Token("b", "1") !in c;
    forall k | k in Kept(PLAIN, DROPPED) ensures !(k <= c) {
      assert Token("b", "1") in k;
    }
    UncoveredIsWrong(PLAIN, DROPPED, c);
  }

  /** The same dropping is harmless where what is dropped follows from what is kept: a `match`
      on any token of a text beside one on all of them. */
  lemma HarmlessDrop(ix: Index, field: string, text: string)
    requires Contract(ix)
    ensures var q := Beside(Match(field, text, And), Match(field, text, Or));
      Exact(q) && Resolvable(q) && Covered(ix.analysis, q) && SearchDocs(ix, q) == MatchSet(ix, q)
  {
    hide Contract, Exact, Resolvable, Kept, Required, SearchDocs, MatchSet;
    var q, tokens := Beside(Match(field, text, And), Match(field, text, Or)), ix.analysis.terms(field, text);
    BesideClauses(ix.analysis, Match(field, text, And), Match(field, text, Or));
    var any := set token | token in tokens :: Token(field, token);
    if tokens == [] {
      assert {} in Kept(ix.analysis, q);
    } else {
      assert tokens[0] in tokens;
      assert {Token(field, tokens[0])} in Kept(ix.analysis, q) && {Token(field, tokens[0])} <= any;
    }
    assert exists k | k in Kept(ix.analysis, q) :: k <= any;
    SearchIsRightOn(ix, q);
  }

  // As it runs

  lemma MeetUnique(a: seq<set<nat>>, b: seq<set<nat>>)
    requires a != [] && b != [] && forall s :: s in a <==> s in b
    ensures Meet(a) == Meet(b)
  {
    hide Meet;
    forall d: nat ensures d in Meet(a) <==> d in Meet(b) {
      InMeet(a, d);
      InMeet(b, d);
    }
  }

  ghost predicate Ascending(sets: seq<set<nat>>) {
    forall i, j :: 0 <= i < j < |sets| ==> |sets[i]| <= |sets[j]|
  }

  lemma InsertKeepsAscending(sorted: seq<set<nat>>, s: set<nat>, at: nat)
    requires Ascending(sorted) && at <= |sorted|
    requires at > 0 ==> |sorted[at - 1]| <= |s|
    requires at < |sorted| ==> |s| < |sorted[at]|
    ensures Ascending(sorted[..at] + [s] + sorted[at..])
  {
    var r := sorted[..at] + [s] + sorted[at..];
    forall i, j | 0 <= i < j < |r| ensures |r[i]| <= |r[j]| {
      if i < at {
        assert |sorted[i]| <= |s|;
      }
      if j > at {
        assert |s| < |sorted[j - 1]|;
      }
    }
  }

  lemma InsertAddsOne<T>(sorted: seq<T>, x: T, at: nat)
    requires at <= |sorted|
    ensures multiset(sorted[..at] + [x] + sorted[at..]) == multiset(sorted) + multiset{x}
  {
    assert sorted == sorted[..at] + sorted[at..];
  }

  method InsertBySize(sorted: seq<set<nat>>, s: set<nat>) returns (r: seq<set<nat>>)
    requires Ascending(sorted)
    ensures multiset(r) == multiset(sorted) + multiset{s} && Ascending(r)
  {
    hide Ascending;
    var at := |sorted|;
    while at > 0 && |s| < |sorted[at - 1]|
      invariant 0 <= at <= |sorted|
      invariant at < |sorted| ==> |s| < |sorted[at]|
    {
      at := at - 1;
    }
    InsertAddsOne(sorted, s, at);
    InsertKeepsAscending(sorted, s, at);
    r := sorted[..at] + [s] + sorted[at..];
  }

  /** The sets in ascending order of size. */
  method SortBySize(sets: seq<set<nat>>) returns (sorted: seq<set<nat>>)
    ensures multiset(sorted) == multiset(sets) && Ascending(sorted)
  {
    hide Ascending;
    sorted := [];
    NothingToSort();
    for i := 0 to |sets|
      invariant multiset(sorted) == multiset(sets[..i]) && Ascending(sorted)
    {
      assert sets[..i + 1] == sets[..i] + [sets[i]];
      sorted := InsertBySize(sorted, sets[i]);
    }
    assert sets[..|sets|] == sets;
  }

  lemma NothingToSort()
    ensures Ascending([])
  {
  }

  lemma {:induction false} MeetSnoc(sets: seq<set<nat>>, s: set<nat>)
    requires sets != []
    ensures Meet(sets + [s]) == Meet(sets) * s
  {
    if |sets| > 1 {
      MeetSnoc(sets[1..], s);
      assert (sets + [s])[1..] == sets[1..] + [s];
    } else {
      assert (sets + [s])[1..] == [s];
    }
  }

  lemma {:induction false} MeetEmpty(sets: seq<set<nat>>, n: nat)
    requires 0 < n <= |sets| && Meet(sets[..n]) == {}
    ensures Meet(sets) == {}
  {
    forall d: nat ensures d !in Meet(sets) {
      InMeet(sets[..n], d);
      InMeet(sets, d);
    }
  }

  /** Intersects from the smallest set up, stopping once nothing is left. */
  method IntersectAscending(sets: seq<set<nat>>) returns (r: Option<set<nat>>)
    ensures r == if sets == [] then None else Some(Meet(sets))
  {
    hide Meet;
    r := None;
    var sorted := SortBySize(sets);
    assert |sorted| == |sets| by { assert |multiset(sorted)| == |multiset(sets)|; }
    for i := 0 to |sorted|
      invariant r == if i == 0 then None else Some(Meet(sorted[..i]))
    {
      if i > 0 {
        MeetSnoc(sorted[..i], sorted[i]);
      } else {
        MeetOne(sorted[0]);
        assert sorted[..1] == [sorted[0]];
      }
      assert sorted[..i] + [sorted[i]] == sorted[..i + 1];
      r := match r case Some(previous) => Some(previous * sorted[i]) case None => Some(sorted[i]);
      if r.value == {} {
        MeetEmpty(sorted, i + 1);
        break;
      }
    }
    assert sorted[..|sorted|] == sorted;
    if sets != [] {
      SameMembers(sorted, sets);
      MeetUnique(sorted, sets);
    }
  }

  lemma MeetOne(s: set<nat>)
    ensures Meet([s]) == s
  {
  }

  lemma SameMembers(a: seq<set<nat>>, b: seq<set<nat>>)
    requires multiset(a) == multiset(b)
    ensures forall s :: s in a <==> s in b
  {
    forall s ensures s in a <==> s in b {
      assert s in a <==> s in multiset(a);
      assert s in b <==> s in multiset(b);
    }
  }

  /** The candidate sets of those clauses that have one, clause by clause. */
  method ResolveClauses(ix: Index, qs: seq<Query>) returns (sets: seq<set<nat>>)
    ensures sets == Resolved(ix, qs)
    decreases qs, 0
  {
    hide Candidates;
    sets := [];
    if qs != [] {
      var first := PostingCandidateIds(ix, qs[0]);
      var rest := ResolveClauses(ix, qs[1..]);
      sets := (match first case Some(s) => [s] case None => []) + rest;
    }
  }

  /** The direct path: a scan of the required clauses that stops at the first that is not flat. */
  method TryFastPath(ix: Index, required: seq<Query>) returns (r: Option<set<nat>>)
    ensures r == FastPath(ix, required)
  {
    var pairs: seq<(string, string)>, matchClauses: seq<(string, string, Operator)> := [], [];
    var allMatch := true;
    for i := 0 to |required|
      invariant forall q | q in required[..i] :: IsFlat(q)
      invariant pairs == Pairs(required[..i])
      invariant allMatch <==> forall q | q in required[..i] :: q.Match?
      invariant allMatch ==> matchClauses == MatchClauses(required[..i])
    {
      var q := required[i];
      assert required[..i + 1] == required[..i] + [q];
      assert q in required;
      match q
      case Match(field, text, operator) =>
        pairs := pairs + [(field, text)];
        matchClauses := matchClauses + [(field, text, operator)];
      case Term(field, text) =>
        pairs := pairs + [(field, text)];
        allMatch := false;
        assert q in required[..i + 1] && !q.Match?;
      case _ =>
        return None;
    }
    assert required[..|required|] == required;
    r := None;
    if |pairs| >= 2 {
      r := ix.leapfrog(pairs);
      if r.None? && allMatch {
        r := ix.conjunction(matchClauses);
      }
    }
  }

  /** Resolves a query to candidate ids. */
  method PostingCandidateIds(ix: Index, q: Query) returns (r: Option<set<nat>>)
    ensures r == Candidates(ix, q)
    decreases q, 1
  {
    match q
    case Term(field, text) => r := Some(ix.termPostings(field, text));
    case Match(field, text, operator) => r := Some(ix.matchPostings(field, text, operator));
    case Prefix(field, text) => r := ix.prefixPostings(field, text);
    case MultiMatch(text, fields, operator) =>
      var matches: set<nat> := {};
      ghost var sets := seq(|fields|, i requires 0 <= i < |fields| => ix.matchPostings(fields[i], text, operator));
      for i := 0 to |fields|
        invariant matches == Join(sets[..i])
      {
        JoinSnoc(sets[..i], sets[i]);
        assert sets[..i] + [sets[i]] == sets[..i + 1];
        matches := matches + ix.matchPostings(fields[i], text, operator);
      }
      assert sets[..|fields|] == sets;
      r := Some(matches);
    case Bool(must, filter, mustNot, should, minimum) =>
      var fast: Option<set<nat>> := None;
      if should == [] || AllRequired(q) {
        fast := TryFastPath(ix, RequiredClauses(q));
      }
      if fast.Some? {
        return fast;
      }
      var mustSets := ResolveClauses(ix, must);
      var filterSets := ResolveClauses(ix, filter);
      var sets := mustSets + filterSets;
      if should != [] && minimum >= 1 {
        var shouldSets := ResolveClauses(ix, should);
        if |shouldSets| == |should| {
          sets := sets + if minimum == |should| then shouldSets else [Join(shouldSets)];
        }
      }
      assert sets == Resolved(ix, must) + Resolved(ix, filter) + ShouldSets(ix, should, minimum);
      r := IntersectAscending(sets);
    case FunctionScore(inner) => r := PostingCandidateIds(ix, inner);
    case Other(_) => r := None;
  }

  lemma {:induction false} JoinSnoc(sets: seq<set<nat>>, s: set<nat>)
    ensures Join(sets + [s]) == Join(sets) + s
  {
    if sets == [] {
      assert sets + [s] == [s];
    } else {
      JoinSnoc(sets[1..], s);
      assert (sets + [s])[1..] == sets[1..] + [s];
    }
  }
}
