/** The organisation-name matchers: an exact matcher (set membership) and a partial
    matcher that falls back to substring-gated, similarity-scored candidates. */
module Matchers {
  import opened Results
  import opened Substrings

  /** The three match statuses: the `match_status` values MATCH, PARTIAL and MISS. */
  datatype Status = Matched | Partial | Missed {
    function Label(): string {
      match this
      case Matched => "MATCH"
      case Partial => "PARTIAL"
      case Missed => "MISS"
    }
  }

  /** A match result. Only a partial match carries candidates: candidate name to score. */
  datatype MatchResult = Match | PartialMatch(candidates: map<string, real>) | Mismatch {
    function Status(): Status {
      match this
      case Match => Matched
      case PartialMatch(_) => Partial
      case Mismatch => Missed
    }

    /** The candidate map, or the empty map for a result that has none. */
    function CandidatesOrEmpty(): map<string, real> {
      if PartialMatch? then candidates else map[]
    }
  }

  /** A similarity measure between the query and a registered name, always in [0, 1]
      (the role of a sequence matcher's ratio). */
  ghost predicate IsUnitRatio(f: (string, string) -> real) {
    forall a, b :: 0.0 <= f(a, b) <= 1.0
  }

  type Ratio = f: (string, string) -> real | IsUnitRatio(f)
    witness (a: string, b: string) => 0.0

  /** The matcher capability is closed: exactly these two strategies, each over its
      set of registered canonical names. */
  datatype Matcher = ExactMatcher(names: set<string>) | PartialMatcher(names: set<string>)

  /** Registers one name. */
  function Add(m: Matcher, name: string): (r: Matcher)
    ensures r.names == m.names + {name}
    ensures r.ExactMatcher? <==> m.ExactMatcher?
  {
    match m
    case ExactMatcher(ns) => ExactMatcher(ns + {name})
    case PartialMatcher(ns) => PartialMatcher(ns + {name})
  }

  /** Registers a sequence of names, one after another. */
  function Register(m: Matcher, names: seq<string>): (r: Matcher)
    ensures r.names == m.names + set x | x in names
    ensures r.ExactMatcher? <==> m.ExactMatcher?
    decreases |names|
  {
    if |names| == 0 then m
    else
      var r := Register(Add(m, names[0]), names[1..]);
      assert (set x | x in names) == {names[0]} + set x | x in names[1..];
      r
  }

  /** Adding a name that is already registered changes nothing. */
  lemma AddIdempotent(m: Matcher, name: string)
    ensures Add(Add(m, name), name) == Add(m, name)
  {
  }

  /** The resulting matcher depends only on which names were registered, not on their
      order or repetition. */
  lemma RegisterOrderIrrelevant(m: Matcher, a: seq<string>, b: seq<string>)
    requires forall x :: x in a <==> x in b
    ensures Register(m, a) == Register(m, b)
  {
    assert (set x | x in a) == (set x | x in b);
  }

  /** The exact strategy. */
  function ExactMatch(names: set<string>, query: string): (r: MatchResult)
    ensures r == Match <==> query in names
    ensures r == Mismatch <==> query !in names
  {
    if query in names then Match else Mismatch
  }

  /** The directional offset of a registered name relative to the query: 0 when the query
      is contained in the name (tested first), -1 when only the name is contained in the
      query, and no offset (the name is skipped) otherwise. */
  function Offset(query: string, name: string): (r: Option<real>)
    ensures r == Some(0.0) <==> IsSubstring(query, name)
    ensures r == Some(-1.0) <==> !IsSubstring(query, name) && IsSubstring(name, query)
    ensures r == None <==> !IsSubstring(query, name) && !IsSubstring(name, query)
  {
    ContainsIsSubstring(query, name);
    ContainsIsSubstring(name, query);
    if Contains(query, name) then Some(0.0)
    else if Contains(name, query) then Some(-1.0)
    else None
  }

  /** The query and the name are related by containment in either direction. */
  ghost predicate Related(query: string, name: string) {
    IsSubstring(query, name) || IsSubstring(name, query)
  }

  /** The scored candidates among `names`: every name related to the query, scored with
      its offset plus its similarity to the query. */
  function Candidates(names: set<string>, query: string, ratio: Ratio): (c: map<string, real>)
    ensures forall o :: o in c <==> o in names && Related(query, o)
    ensures forall o :: o in c ==> -1.0 <= c[o] <= 1.0
    ensures forall o :: o in c && IsSubstring(query, o) ==> c[o] == ratio(query, o)
    ensures forall o :: o in c && !IsSubstring(query, o) ==> c[o] == ratio(query, o) - 1.0
  {
    map o | o in names && Offset(query, o).Some? :: Offset(query, o).value + ratio(query, o)
  }

  /** The partial strategy: an exact hit short-circuits, otherwise the candidate map
      decides between a partial match and a miss. */
  function PartialMatchOf(names: set<string>, query: string, ratio: Ratio): (r: MatchResult)
    ensures r == Match <==> query in names
    ensures r == Mismatch <==> query !in names && forall o :: o in names ==> !Related(query, o)
    ensures r.PartialMatch? <==> query !in names && exists o :: o in names && Related(query, o)
    ensures r.PartialMatch? ==> |r.candidates| > 0
    ensures r.PartialMatch? ==> forall o :: o in r.candidates <==> o in names && Related(query, o)
  {
    if query in names then Match
    else
      var c := Candidates(names, query, ratio);
      if |c| > 0 then PartialMatch(c)
      else
        assert c == map[];
        Mismatch
  }

  /** Dispatches on the strategy. */
  function MatchWith(m: Matcher, query: string, ratio: Ratio): (r: MatchResult)
    ensures r == Match <==> query in m.names
    ensures r.PartialMatch? ==> m.PartialMatcher? && |r.candidates| > 0
    ensures r.Status() == Partial <==> r.CandidatesOrEmpty() != map[]
  {
    match m
    case ExactMatcher(ns) => ExactMatch(ns, query)
    case PartialMatcher(ns) => PartialMatchOf(ns, query, ratio)
  }

  /** The partial strategy as the source runs it: an exact-hit test, then a scan of the
      registered names accumulating the candidate map. */
  method PartialMatchScan(names: set<string>, query: string, ratio: Ratio) returns (r: MatchResult)
    ensures r == PartialMatchOf(names, query, ratio)
  {
    if query in names {
      return Match;
    }
    var candidates: map<string, real> := map[];
    var rest := names;
    while rest != {}
      invariant rest <= names
      invariant candidates == Candidates(names - rest, query, ratio)
      decreases rest
    {
      var o :| o in rest;
      var offset := Offset(query, o);
      if offset.Some? {
        candidates := candidates[o := offset.value + ratio(query, o)];
      }
      rest := rest - {o};
    }
    assert names - rest == names;
    if |candidates| > 0 {
      r := PartialMatch(candidates);
    } else {
      r := Mismatch;
    }
  }

  /** Every registered name matches exactly, under either strategy. */
  lemma AddedNameMatches(m: Matcher, name: string, ratio: Ratio)
    ensures MatchWith(Add(m, name), name, ratio) == Match
    ensures MatchWith(Add(m, name), name, ratio).CandidatesOrEmpty() == map[]
  {
  }

  /** The exact strategy never reports a partial match. */
  lemma ExactNeverPartial(names: set<string>, query: string, ratio: Ratio)
    ensures !MatchWith(ExactMatcher(names), query, ratio).PartialMatch?
  {
  }

  /** The partial strategy refines the exact one over the same names: both agree on
      exact hits, and a partial-strategy miss is an exact-strategy miss. */
  lemma PartialRefinesExact(names: set<string>, query: string, ratio: Ratio)
    ensures MatchWith(PartialMatcher(names), query, ratio) == Match
        <==> MatchWith(ExactMatcher(names), query, ratio) == Match
    ensures MatchWith(PartialMatcher(names), query, ratio) == Mismatch
        ==> MatchWith(ExactMatcher(names), query, ratio) == Mismatch
  {
  }

  /** In a partial match, a candidate longer than the query contains it and scores its
      plain similarity; a candidate shorter than the query is contained in it and scores
      one less; no candidate has the query's own length. */
  lemma CandidateDirection(names: set<string>, query: string, ratio: Ratio, o: string)
    requires PartialMatchOf(names, query, ratio).PartialMatch?
    requires o in PartialMatchOf(names, query, ratio).candidates
    ensures |o| != |query|
    ensures |o| > |query| ==>
              IsSubstring(query, o) && PartialMatchOf(names, query, ratio).candidates[o] == ratio(query, o)
    ensures |o| < |query| ==>
              IsSubstring(o, query) && PartialMatchOf(names, query, ratio).candidates[o] == ratio(query, o) - 1.0
  {
    var c := PartialMatchOf(names, query, ratio).candidates;
    assert query !in names;
    assert o != query;
    if IsSubstring(query, o) {
      SubstringLength(query, o);
      if IsSubstring(o, query) {
        SubstringAntisymmetric(query, o);
      }
    } else {
      assert IsSubstring(o, query);
      SubstringLength(o, query);
    }
  }

  /** An empty query is contained in every string, so when it is not itself registered
      every registered name is a candidate with offset 0. */
  lemma EmptyQueryMatchesAll(names: set<string>, ratio: Ratio)
    requires [] !in names
    ensures forall o :: o in names ==> o in Candidates(names, [], ratio)
    ensures forall o :: o in names ==> Candidates(names, [], ratio)[o] == ratio([], o)
    ensures names != {} ==> PartialMatchOf(names, [], ratio).PartialMatch?
  {
  }

  /** The offset bias: with equal similarity, a candidate that contains the query scores
      exactly one more than a candidate that the query contains. */
  lemma OffsetBias(names: set<string>, query: string, ratio: Ratio, longer: string, shorter: string)
    requires query !in names && longer in names && shorter in names
    requires IsSubstring(query, longer) && IsSubstring(shorter, query)
    requires ratio(query, longer) == ratio(query, shorter)
    ensures longer in Candidates(names, query, ratio) && shorter in Candidates(names, query, ratio)
    ensures Candidates(names, query, ratio)[longer] == Candidates(names, query, ratio)[shorter] + 1.0
  {
    if IsSubstring(query, shorter) {
      SubstringAntisymmetric(query, shorter);
    }
  }

  /** A candidate containing the query never scores below a candidate the query contains. */
  lemma ContainingOutranksContained(names: set<string>, query: string, ratio: Ratio, longer: string, shorter: string)
    requires PartialMatchOf(names, query, ratio).PartialMatch?
    requires longer in PartialMatchOf(names, query, ratio).candidates
    requires shorter in PartialMatchOf(names, query, ratio).candidates
    requires |shorter| < |query| < |longer|
    ensures PartialMatchOf(names, query, ratio).candidates[longer]
        >= PartialMatchOf(names, query, ratio).candidates[shorter]
  {
    CandidateDirection(names, query, ratio, longer);
    CandidateDirection(names, query, ratio, shorter);
  }

  /** The three status labels are distinct. */
  lemma LabelsDistinct(a: Status, b: Status)
    ensures a.Label() == b.Label() ==> a == b
  {
  }
}
