/**
 The dashboard's query state (`searchTerm` and `filters`), the events that
 replace it, and `filteredData`: the stable filter of the records by the
 search term and the four facet selections.
 */
module Query {
  import opened Text
  import opened Records

  /** The four facets; "" in a selection means "no constraint". */
  datatype Facet = TypeFacet | YearFacet | StateFacet | RepoFacet

  datatype Filters = Filters(kind: string, year: string, state: string, repo: string)

  datatype QueryState = QueryState(searchTerm: string, filters: Filters)

  /** The selection currently held for one facet. */
  function Selected(f: Filters, facet: Facet): string
  {
    match facet
    case TypeFacet => f.kind
    case YearFacet => f.year
    case StateFacet => f.state
    case RepoFacet => f.repo
  }

  const NoFilters: Filters := Filters("", "", "", "")

  /** The state the component starts in: empty search term, no facet. */
  function Initial(): (q: QueryState)
    ensures q.searchTerm == "" && forall facet :: Selected(q.filters, facet) == ""
  {
    QueryState("", NoFilters)
  }

  /* ---------------------------------------------------------------------
     State transitions
     --------------------------------------------------------------------- */

  /** The search box's `onChange`: replaces the term, keeps the filters. */
  function SetSearchTerm(q: QueryState, term: string): (r: QueryState)
    ensures r.searchTerm == term && r.filters == q.filters
  {
    q.(searchTerm := term)
  }

  /** A facet selector's `onChange` (`setFilters({...filters, x: v})`):
      the chosen facet takes the new value, every other facet and the
      search term keep theirs. */
  function SetFacet(q: QueryState, facet: Facet, value: string): (r: QueryState)
    ensures r.searchTerm == q.searchTerm
    ensures Selected(r.filters, facet) == value
    ensures forall g :: g != facet ==> Selected(r.filters, g) == Selected(q.filters, g)
  {
    match facet
    case TypeFacet => q.(filters := q.filters.(kind := value))
    case YearFacet => q.(filters := q.filters.(year := value))
    case StateFacet => q.(filters := q.filters.(state := value))
    case RepoFacet => q.(filters := q.filters.(repo := value))
  }

  /** `clearFilters`: every facet and the search term go back to "". */
  function ClearFilters(q: QueryState): (r: QueryState)
    ensures r.searchTerm == ""
    ensures forall facet :: Selected(r.filters, facet) == ""
  {
    QueryState("", NoFilters)
  }

  /* ---------------------------------------------------------------------
     Matching
     --------------------------------------------------------------------- */

  /** The search test: an empty term matches everything, otherwise the
      lower-cased term must occur in the record's search text. */
  predicate MatchesSearch(term: string, v: Vulnerability)
  {
    term == "" || Contains(SearchText(v), Lower(term))
  }

  /** The value a facet selection is compared with: the year through its
      decimal string; a null state never equals a selection. */
  predicate FacetHolds(f: Filters, facet: Facet, v: Vulnerability)
  {
    var sel := Selected(f, facet);
    sel == "" ||
    match facet
    case TypeFacet => v.kind == sel
    case YearFacet => IntToString(v.year) == sel
    case StateFacet => v.state == Some(sel)
    case RepoFacet => v.repo == sel
  }

  /** `matchesFilters`: the conjunction of the four facet tests. */
  predicate MatchesFilters(f: Filters, v: Vulnerability)
  {
    FacetHolds(f, TypeFacet, v) && FacetHolds(f, YearFacet, v) &&
    FacetHolds(f, StateFacet, v) && FacetHolds(f, RepoFacet, v)
  }

  predicate Matches(q: QueryState, v: Vulnerability)
  {
    MatchesSearch(q.searchTerm, v) && MatchesFilters(q.filters, v)
  }

  /* ---------------------------------------------------------------------
     Filtering
     --------------------------------------------------------------------- */

  /** `a` can be obtained from `b` by deleting elements. */
  predicate IsSubsequence<T(==)>(a: seq<T>, b: seq<T>)
    decreases |b|
  {
    a == [] || (b != [] && ((a[0] == b[0] && IsSubsequence(a[1..], b[1..])) || IsSubsequence(a, b[1..])))
  }

  /** `filteredData`: the records that match, in their original order. */
  function Filter(q: QueryState, data: seq<Vulnerability>): (r: seq<Vulnerability>)
    ensures IsSubsequence(r, data)
    ensures forall k :: 0 <= k < |r| ==> Matches(q, r[k])
  {
    if data == [] then []
    else if Matches(q, data[0]) then [data[0]] + Filter(q, data[1..])
    else Filter(q, data[1..])
  }

  /** A record is in the result exactly when it is in the input and matches:
      every kept record passes both tests, every dropped one fails one. */
  lemma {:induction false} FilterMembership(q: QueryState, data: seq<Vulnerability>, v: Vulnerability)
    ensures v in Filter(q, data) <==> v in data && Matches(q, v)
  {
    if data != [] {
      FilterMembership(q, data[1..], v);
      assert data == [data[0]] + data[1..];
    }
  }

  /** Filtering a concatenation filters each part: the filter decides each
      record on its own and keeps the order. */
  lemma {:induction false} FilterAppend(q: QueryState, a: seq<Vulnerability>, b: seq<Vulnerability>)
    ensures Filter(q, a + b) == Filter(q, a) + Filter(q, b)
  {
    if a == [] {
      assert a + b == b;
    } else {
      assert (a + b)[1..] == a[1..] + b;
      FilterAppend(q, a[1..], b);
    }
  }

  /** The number of records that match. */
  function CountMatches(q: QueryState, data: seq<Vulnerability>): nat
  {
    if data == [] then 0 else (if Matches(q, data[0]) then 1 else 0) + CountMatches(q, data[1..])
  }

  /** The count shown next to the tab is the number of matching records. */
  lemma {:induction false} FilterLength(q: QueryState, data: seq<Vulnerability>)
    ensures |Filter(q, data)| == CountMatches(q, data) <= |data|
  {
    if data != [] {
      FilterLength(q, data[1..]);
    }
  }

  /** Two queries that agree on every record give the same result. */
  lemma {:induction false} FilterCongruent(q1: QueryState, q2: QueryState, data: seq<Vulnerability>)
    requires forall k :: 0 <= k < |data| ==> (Matches(q1, data[k]) <==> Matches(q2, data[k]))
    ensures Filter(q1, data) == Filter(q2, data)
  {
    if data != [] {
      FilterCongruent(q1, q2, data[1..]);
    }
  }

  /** Empty search term and no facet: the whole input, in order. */
  lemma {:induction false} FilterNoQuery(data: seq<Vulnerability>)
    ensures Filter(Initial(), data) == data
  {
    if data != [] {
      FilterNoQuery(data[1..]);
    }
  }

  /** After `clearFilters` every record is shown again. */
  lemma ClearFiltersShowsAll(q: QueryState, data: seq<Vulnerability>)
    ensures Filter(ClearFilters(q), data) == data
  {
    FilterNoQuery(data);
  }

  /** Filtering an already filtered list changes nothing. */
  lemma {:induction false} FilterIdempotent(q: QueryState, data: seq<Vulnerability>)
    ensures Filter(q, Filter(q, data)) == Filter(q, data)
  {
    if data != [] {
      FilterIdempotent(q, data[1..]);
    }
  }

  /** Search terms that lower-case alike give the same result: "SQL" and
      "sql" select the same records. */
  lemma SearchCaseInsensitive(q: QueryState, term1: string, term2: string, data: seq<Vulnerability>)
    requires Lower(term1) == Lower(term2)
    ensures Filter(SetSearchTerm(q, term1), data) == Filter(SetSearchTerm(q, term2), data)
  {
    LowerEmpty(term1);
    LowerEmpty(term2);
    FilterCongruent(SetSearchTerm(q, term1), SetSearchTerm(q, term2), data);
  }

  /** The `searchTerm === ""` guard changes no result: the empty term
      lower-cases to the empty string, which every search text includes. */
  lemma SearchGuardRedundant(term: string, v: Vulnerability)
    ensures MatchesSearch(term, v) <==> Contains(SearchText(v), Lower(term))
  {
    if term == "" {
      LowerEmpty(term);
      ContainsEmpty(SearchText(v));
    }
  }

  /** A search term matches a record whenever, lower-cased, it occurs in the
      lower-cased form of one of the five searchable fields. */
  lemma FieldHitMatches(term: string, v: Vulnerability, k: int)
    requires 0 <= k < 5
    requires Contains(Lower(SearchFields(v)[k]), Lower(term))
    ensures MatchesSearch(term, v)
  {
    JoinContainsPart(SearchFields(v), " ", k);
    ContainsLower(Join(SearchFields(v), " "), SearchFields(v)[k]);
    ContainsTransitive(SearchText(v), Lower(SearchFields(v)[k]), Lower(term));
  }

  /** For a search term without spaces the converse holds too: it matches a
      record exactly when it occurs in one of the five lower-cased fields. */
  lemma SpaceFreeTermMatchesField(term: string, v: Vulnerability)
    requires term != "" && ' ' !in term
    ensures MatchesSearch(term, v) <==> exists k :: 0 <= k < 5 && Contains(Lower(SearchFields(v)[k]), Lower(term))
  {
    var fields := SearchFields(v);
    var n := Lower(term);
    assert ' ' !in n by {
      forall i | 0 <= i < |n| ensures n[i] != ' ' {
        assert term[i] != ' ';
      }
    }
    if MatchesSearch(term, v) {
      LowerJoin(fields);
      JoinContainsOnlyParts(LowerAll(fields), n);
      var k :| 0 <= k < |fields| && Contains(LowerAll(fields)[k], n);
      assert Contains(Lower(fields[k]), n);
    }
    if exists k :: 0 <= k < 5 && Contains(Lower(fields[k]), n) {
      var k :| 0 <= k < 5 && Contains(Lower(fields[k]), n);
      FieldHitMatches(term, v, k);
    }
  }

  /** The text is one joined string, so a term may span two adjacent fields
      through the single space between them. */
  lemma AdjacentFieldsMatch(term: string, v: Vulnerability, k: int)
    requires 0 <= k < 4
    requires Contains(Lower(SearchFields(v)[k] + " " + SearchFields(v)[k + 1]), Lower(term))
    ensures MatchesSearch(term, v)
  {
    JoinContainsAdjacent(SearchFields(v), " ", k);
    ContainsLower(Join(SearchFields(v), " "), SearchFields(v)[k] + " " + SearchFields(v)[k + 1]);
    ContainsTransitive(SearchText(v), Lower(SearchFields(v)[k] + " " + SearchFields(v)[k + 1]), Lower(term));
  }

  /** The year facet compares decimal strings, so selecting the string form
      of a year keeps exactly the records of that year. */
  lemma YearFacetExact(f: Filters, y: int, v: Vulnerability)
    requires f.year == IntToString(y)
    ensures FacetHolds(f, YearFacet, v) <==> v.year == y
  {
    IntToStringInjective(v.year, y);
  }

  /** Selections `q2` refines `q1` when they share the search term and every
      facet of `q1` is either unconstrained or selected alike in `q2`. */
  predicate Refines(q2: QueryState, q1: QueryState)
  {
    q2.searchTerm == q1.searchTerm &&
    forall facet :: Selected(q1.filters, facet) == "" || Selected(q2.filters, facet) == Selected(q1.filters, facet)
  }

  /** Every record a refined query keeps, the coarser query keeps too. */
  lemma RefinedMatches(q2: QueryState, q1: QueryState, v: Vulnerability)
    requires Refines(q2, q1) && Matches(q2, v)
    ensures Matches(q1, v)
  {
    assert FacetHolds(q1.filters, TypeFacet, v);
    assert FacetHolds(q1.filters, YearFacet, v);
    assert FacetHolds(q1.filters, StateFacet, v);
    assert FacetHolds(q1.filters, RepoFacet, v);
  }

  /** Refining a query keeps a subsequence of what the coarser one keeps. */
  lemma {:induction false} FilterRefines(q2: QueryState, q1: QueryState, data: seq<Vulnerability>)
    requires Refines(q2, q1)
    ensures IsSubsequence(Filter(q2, data), Filter(q1, data))
    ensures |Filter(q2, data)| <= |Filter(q1, data)|
    decreases |data|
  {
    if data != [] {
      FilterRefines(q2, q1, data[1..]);
      if Matches(q2, data[0]) {
        RefinedMatches(q2, q1, data[0]);
      }
    }
  }

  /** Setting a facet that was unset never adds records; unsetting it again
      never removes any. */
  lemma SetFacetNarrows(q: QueryState, facet: Facet, value: string, data: seq<Vulnerability>)
    requires Selected(q.filters, facet) == ""
    ensures IsSubsequence(Filter(SetFacet(q, facet, value), data), Filter(q, data))
    ensures |Filter(SetFacet(q, facet, value), data)| <= |Filter(q, data)|
  {
    FilterRefines(SetFacet(q, facet, value), q, data);
  }
}
