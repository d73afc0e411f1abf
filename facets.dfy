/**
 `filterOptions`: the values offered by each facet selector, derived from
 the records. Each list is `[...new Set(values)]`, which keeps the first
 occurrence of every value in input order; the years are then sorted with
 the comparator `(a, b) => b - a`, newest first; states drop the falsy
 ones (null and "").
 */
module Facets {
  import opened Text
  import opened Records
  import opened Query

  /* ---------------------------------------------------------------------
     `[...new Set(s)]`
     --------------------------------------------------------------------- */

  predicate NoDuplicates<T(==)>(s: seq<T>)
  {
    forall i, j :: 0 <= i < j < |s| ==> s[i] != s[j]
  }

  /** The index of the first occurrence of `x` in `s`. */
  function FirstIndex<T(==)>(s: seq<T>, x: T): (k: nat)
    requires x in s
    ensures k < |s| && s[k] == x && x !in s[..k]
  {
    if s[0] == x then 0 else 1 + FirstIndex(s[1..], x)
  }

  /** The distinct values of `s`, each at its first occurrence, as a JS `Set`
      built from `s` and spread back into an array. */
  function Distinct<T(==)>(s: seq<T>): (r: seq<T>)
    ensures NoDuplicates(r)
    ensures forall i :: 0 <= i < |r| ==> r[i] in s
    ensures forall i :: 0 <= i < |s| ==> s[i] in r
  {
    if s == [] then []
    else
      var d := Distinct(s[..|s| - 1]);
      if s[|s| - 1] in d then d else d + [s[|s| - 1]]
  }

  /** Appending to a sequence does not move a first occurrence. */
  lemma {:induction false} FirstIndexPrefix<T>(p: seq<T>, q: seq<T>, x: T)
    requires x in p
    ensures FirstIndex(p + q, x) == FirstIndex(p, x)
  {
    if p[0] != x {
      assert (p + q)[1..] == p[1..] + q;
      FirstIndexPrefix(p[1..], q, x);
    }
  }

  /** `Distinct` lists the values in the order of their first occurrence. */
  lemma {:induction false} DistinctFirstOccurrenceOrder<T>(s: seq<T>)
    ensures forall i, j :: 0 <= i < j < |Distinct(s)| ==>
      FirstIndex(s, Distinct(s)[i]) < FirstIndex(s, Distinct(s)[j])
  {
    if s != [] {
      var p, x := s[..|s| - 1], s[|s| - 1];
      assert s == p + [x];
      DistinctFirstOccurrenceOrder(p);
      var d := Distinct(p);
      forall y | y in p ensures FirstIndex(s, y) == FirstIndex(p, y) {
        FirstIndexPrefix(p, [x], y);
      }
      if x !in d {
        assert FirstIndex(s, x) == |p| by {
          assert x !in p;
          assert s[..|p|] == p;
        }
        forall i | 0 <= i < |d| ensures FirstIndex(s, d[i]) < FirstIndex(s, x) {
          assert d[i] in p;
        }
        assert Distinct(s) == d + [x];
      }
    }
  }

  /* ---------------------------------------------------------------------
     `.sort((a, b) => b - a)`
     --------------------------------------------------------------------- */

  predicate Descending(s: seq<int>)
  {
    forall i, j :: 0 <= i < j < |s| ==> s[i] >= s[j]
  }

  predicate StrictlyDescending(s: seq<int>)
  {
    forall i, j :: 0 <= i < j < |s| ==> s[i] > s[j]
  }

  /** Places `x` in a descending sequence after every larger value. */
  function InsertDesc(x: int, s: seq<int>): (r: seq<int>)
    requires Descending(s)
    ensures Descending(r)
    ensures multiset(r) == multiset(s) + multiset{x}
  {
    if s == [] || x >= s[0] then [x] + s
    else
      assert s == [s[0]] + s[1..];
      var t := InsertDesc(x, s[1..]);
      BoundedByMultiset(t, s[1..], x, s[0]);
      [s[0]] + t
  }

  /** A bound on `s` and on `x` bounds every permutation of `s` plus `x`. */
  lemma BoundedByMultiset(t: seq<int>, s: seq<int>, x: int, b: int)
    requires multiset(t) == multiset(s) + multiset{x}
    requires x <= b && forall k :: 0 <= k < |s| ==> s[k] <= b
    ensures forall k :: 0 <= k < |t| ==> t[k] <= b
  {
    forall k | 0 <= k < |t| ensures t[k] <= b {
      assert t[k] in multiset(t);
      if t[k] != x {
        assert t[k] in multiset(s);
      }
    }
  }

  /** Numeric sort, largest first; a permutation of the input. */
  function SortDesc(s: seq<int>): (r: seq<int>)
    ensures Descending(r)
    ensures multiset(r) == multiset(s)
  {
    if s == [] then []
    else
      assert s == [s[0]] + s[1..];
      InsertDesc(s[0], SortDesc(s[1..]))
  }

  /** Inserting a value that is not yet present keeps a strict order. */
  lemma {:induction false} InsertDescStrict(x: int, s: seq<int>)
    requires StrictlyDescending(s) && x !in s
    ensures StrictlyDescending(InsertDesc(x, s))
  {
    if s != [] && x < s[0] {
      InsertDescStrict(x, s[1..]);
      var r := InsertDesc(x, s[1..]);
      forall k | 0 <= k < |r| ensures r[k] < s[0] {
        assert r[k] in multiset(r);
      }
    }
  }

  /** Sorting values without duplicates gives a strictly descending list. */
  lemma {:induction false} SortDescStrict(s: seq<int>)
    requires NoDuplicates(s)
    ensures StrictlyDescending(SortDesc(s))
  {
    if s != [] {
      SortDescStrict(s[1..]);
      assert s[0] !in s[1..];
      assert s[0] !in multiset(SortDesc(s[1..]));
      InsertDescStrict(s[0], SortDesc(s[1..]));
    }
  }

  /* ---------------------------------------------------------------------
     The four option lists
     --------------------------------------------------------------------- */

  /** The option lists offered by the four selectors. */
  datatype FilterOptions = FilterOptions(
    types: seq<string>,
    years: seq<int>,
    states: seq<string>,
    repos: seq<string>)

  /** `.filter(Boolean)` on the states: drops null and the empty string. */
  function TruthyStates(data: seq<Vulnerability>): seq<string>
  {
    if data == [] then []
    else if data[0].state.Some? && data[0].state.value != "" then [data[0].state.value] + TruthyStates(data[1..])
    else TruthyStates(data[1..])
  }

  lemma {:induction false} TruthyStatesMembers(data: seq<Vulnerability>, s: string)
    ensures s in TruthyStates(data) <==> s != "" && exists k :: 0 <= k < |data| && data[k].state == Some(s)
  {
    if data != [] {
      TruthyStatesMembers(data[1..], s);
      if s in TruthyStates(data[1..]) {
        var k :| 0 <= k < |data[1..]| && data[1..][k].state == Some(s);
        assert data[k + 1].state == Some(s);
      }
      if s != "" && data[0].state != Some(s) && exists k :: 0 <= k < |data| && data[k].state == Some(s) {
        var k :| 0 <= k < |data| && data[k].state == Some(s);
        assert data[1..][k - 1].state == Some(s);
      }
    }
  }

  function Kinds(data: seq<Vulnerability>): seq<string>
  {
    seq(|data|, k requires 0 <= k < |data| => data[k].kind)
  }

  function Years(data: seq<Vulnerability>): seq<int>
  {
    seq(|data|, k requires 0 <= k < |data| => data[k].year)
  }

  function Repos(data: seq<Vulnerability>): seq<string>
  {
    seq(|data|, k requires 0 <= k < |data| => data[k].repo)
  }

  /** `filterOptions`. */
  function Options(data: seq<Vulnerability>): FilterOptions
  {
    FilterOptions(
      Distinct(Kinds(data)),
      SortDesc(Distinct(Years(data))),
      Distinct(TruthyStates(data)),
      Distinct(Repos(data)))
  }

  /** No selector offers the same value twice, and the years are listed
      newest first with no year repeated. */
  lemma OptionsDistinct(data: seq<Vulnerability>)
    ensures NoDuplicates(Options(data).types)
    ensures NoDuplicates(Options(data).states)
    ensures NoDuplicates(Options(data).repos)
    ensures StrictlyDescending(Options(data).years)
  {
    SortDescStrict(Distinct(Years(data)));
  }

  /** `Distinct` keeps exactly the values of its input. */
  lemma DistinctMembers<T>(s: seq<T>, x: T)
    ensures x in Distinct(s) <==> x in s
  {
    if x in s {
      var k :| 0 <= k < |s| && s[k] == x;
    }
  }

  /** The type selector offers exactly the types that occur in some record. */
  lemma TypeOptionsExact(data: seq<Vulnerability>, t: string)
    ensures t in Options(data).types <==> exists k :: 0 <= k < |data| && data[k].kind == t
  {
    DistinctMembers(Kinds(data), t);
    if exists k :: 0 <= k < |data| && data[k].kind == t {
      var k :| 0 <= k < |data| && data[k].kind == t;
      assert Kinds(data)[k] == t;
    }
  }

  /** The year selector offers exactly the years that occur in some record. */
  lemma YearOptionsExact(data: seq<Vulnerability>, y: int)
    ensures y in Options(data).years <==> exists k :: 0 <= k < |data| && data[k].year == y
  {
    SortDescMembers(Distinct(Years(data)), y);
    DistinctMembers(Years(data), y);
    if exists k :: 0 <= k < |data| && data[k].year == y {
      var k :| 0 <= k < |data| && data[k].year == y;
      assert Years(data)[k] == y;
    }
  }

  /** Sorting neither adds nor drops a value. */
  lemma SortDescMembers(s: seq<int>, y: int)
    ensures y in SortDesc(s) <==> y in s
  {
    assert y in SortDesc(s) <==> y in multiset(SortDesc(s));
    assert y in s <==> y in multiset(s);
  }

  /** The state selector offers exactly the non-empty states that occur in
      some record: never null, never "". */
  lemma StateOptionsExact(data: seq<Vulnerability>, s: string)
    ensures s in Options(data).states <==> s != "" && exists k :: 0 <= k < |data| && data[k].state == Some(s)
  {
    DistinctMembers(TruthyStates(data), s);
    TruthyStatesMembers(data, s);
  }

  /** The repository selector offers exactly the repositories that occur in
      some record. */
  lemma RepoOptionsExact(data: seq<Vulnerability>, r: string)
    ensures r in Options(data).repos <==> exists k :: 0 <= k < |data| && data[k].repo == r
  {
    DistinctMembers(Repos(data), r);
    if exists k :: 0 <= k < |data| && data[k].repo == r {
      var k :| 0 <= k < |data| && data[k].repo == r;
      assert Repos(data)[k] == r;
    }
  }

  /** The strings a selector hands to its `onChange`: the `value` attribute
      of each `<option>`, so years arrive as their decimal strings. */
  function OptionValues(o: FilterOptions, facet: Facet): seq<string>
  {
    match facet
    case TypeFacet => o.types
    case YearFacet => seq(|o.years|, i requires 0 <= i < |o.years| => IntToString(o.years[i]))
    case StateFacet => o.states
    case RepoFacet => o.repos
  }

  /** With no search term and a single facet selected, a record is shown
      exactly when that facet holds for it. */
  lemma SingleFacetMatches(facet: Facet, value: string, v: Vulnerability)
    ensures Matches(SetFacet(Initial(), facet, value), v) <==> FacetHolds(SetFacet(Initial(), facet, value).filters, facet, v)
  {
  }

  /** A record that carries an offered value, for each selector. */
  lemma OptionWitness(data: seq<Vulnerability>, facet: Facet, value: string) returns (k: int)
    requires value in OptionValues(Options(data), facet)
    ensures 0 <= k < |data| && FacetHolds(SetFacet(Initial(), facet, value).filters, facet, data[k])
  {
    var o := Options(data);
    match facet {
      case TypeFacet =>
        TypeOptionsExact(data, value);
        k :| 0 <= k < |data| && data[k].kind == value;
      case YearFacet =>
        var i :| 0 <= i < |o.years| && IntToString(o.years[i]) == value;
        YearOptionsExact(data, o.years[i]);
        k :| 0 <= k < |data| && data[k].year == o.years[i];
      case StateFacet =>
        StateOptionsExact(data, value);
        k :| 0 <= k < |data| && data[k].state == Some(value);
      case RepoFacet =>
        RepoOptionsExact(data, value);
        k :| 0 <= k < |data| && data[k].repo == value;
    }
  }

  /** Round trip: picking any offered value in any one selector, with no
      search term and no other facet, shows at least one record, and shows
      exactly the records that carry that value. */
  lemma OptionRoundTrip(data: seq<Vulnerability>, facet: Facet, value: string)
    requires value in OptionValues(Options(data), facet)
    ensures Filter(SetFacet(Initial(), facet, value), data) != []
    ensures forall v :: v in Filter(SetFacet(Initial(), facet, value), data) <==>
      v in data && FacetHolds(SetFacet(Initial(), facet, value).filters, facet, v)
  {
    var q := SetFacet(Initial(), facet, value);
    var k := OptionWitness(data, facet, value);
    SingleFacetMatches(facet, value, data[k]);
    FilterMembership(q, data, data[k]);
    forall v ensures v in Filter(q, data) <==> v in data && FacetHolds(q.filters, facet, v) {
      SingleFacetMatches(facet, value, v);
      FilterMembership(q, data, v);
    }
  }

  /** Every value a record carries is offered by its selector. */
  lemma CarriedIsOffered(data: seq<Vulnerability>, facet: Facet, value: string, v: Vulnerability)
    requires value != "" && v in data && FacetHolds(SetFacet(Initial(), facet, value).filters, facet, v)
    ensures value in OptionValues(Options(data), facet)
  {
    var k :| 0 <= k < |data| && data[k] == v;
    var o := Options(data);
    match facet {
      case TypeFacet =>
        TypeOptionsExact(data, value);
      case YearFacet =>
        YearOptionsExact(data, v.year);
        var i :| 0 <= i < |o.years| && o.years[i] == v.year;
        assert OptionValues(o, facet)[i] == value;
      case StateFacet =>
        StateOptionsExact(data, value);
      case RepoFacet =>
        RepoOptionsExact(data, value);
    }
  }

  /** The other direction of the round trip: a value that the selector does
      not offer, chosen alone, lists no record (and is no error). */
  lemma NotOfferedEmpty(data: seq<Vulnerability>, facet: Facet, value: string)
    requires value != "" && value !in OptionValues(Options(data), facet)
    ensures Filter(SetFacet(Initial(), facet, value), data) == []
  {
    var q := SetFacet(Initial(), facet, value);
    if Filter(q, data) != [] {
      var v := Filter(q, data)[0];
      FilterMembership(q, data, v);
      SingleFacetMatches(facet, value, v);
      CarriedIsOffered(data, facet, value, v);
    }
  }

  /** Offered and useful are the same thing: a non-empty value, chosen alone
      in its selector, lists some record exactly when the selector offers it. */
  lemma OfferedIffListed(data: seq<Vulnerability>, facet: Facet, value: string)
    requires value != ""
    ensures value in OptionValues(Options(data), facet) <==> Filter(SetFacet(Initial(), facet, value), data) != []
  {
    if value in OptionValues(Options(data), facet) {
      OptionRoundTrip(data, facet, value);
    } else {
      NotOfferedEmpty(data, facet, value);
    }
  }
}
