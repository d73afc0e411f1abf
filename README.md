# Vulnerability dashboard query layer

A Dafny model of the query layer of the vulnerability dashboard in
`ReactJS/sec-dashboard-a001/main.jsx`. The dashboard lists vulnerability
records: commits, pull requests and code findings. The user narrows the list
with a free-text search and four selectors (type, year, state, repository).
Each record links out to GitHub.

The model has five modules:

- `Text` models the JavaScript string operations the filter relies on.
  - `Lower` is `toLowerCase`, restricted to ASCII.
  - `Contains` is `includes`.
  - `Join` is `join`.
  - `IntToString` is `Number.prototype.toString`, with its inverse `ParseInt`.
- `Records` holds the record type and `generateGitHubLink`.
- `Query` holds the search/filter state (`searchTerm` and `filters`) and its
  transitions. These are the search box's `onChange`, the four selectors'
  `onChange` and `clearFilters`. It also holds the `filteredData` predicate
  and the filter itself.
- `Facets` is `filterOptions`:
  - values made unique in order of first occurrence (`new Set`);
  - years sorted newest first;
  - null and empty states dropped.
- `Sample` holds the twelve records the dashboard ships with and concrete
  scenarios about them.

The component never mutates the record list. React replaces the state object
on every change, so the model uses pure functions over immutable values.

Type "pull_request" together with the search "security" keeps two of the
sample records:
- the dependency update, whose title contains the word;
- the Content Security Policy pull request, whose user name `security-team`,
  title and file name all contain it.

`Sample.ScenarioSecurityInTitle` and `Sample.ScenarioSecurityInUser` prove
that both records match.

## Model

| member | source | states |
|---|---|---|
| Text.LowerAppend | ReactJS/sec-dashboard-a001/main.jsx:281 | lower-casing distributes over concatenation, character by character |
| Text.Lower | ReactJS/sec-dashboard-a001/main.jsx:281-284 | `toLowerCase` on ASCII, letter by letter; described by `Text.LowerAppend`, `Text.LowerEmpty`, `Text.ContainsLower` and `Text.LowerJoin` |
| Text.LowerEmpty | ReactJS/sec-dashboard-a001/main.jsx:281 | lower-casing keeps a text empty exactly when it was empty |
| Text.LowerChar | ReactJS/sec-dashboard-a001/main.jsx:281 | `toLowerCase` on one character: an ASCII capital becomes its small letter, everything else stays; the result is never an ASCII capital |
| Text.ContainsEmpty | ReactJS/sec-dashboard-a001/main.jsx:284 | every text includes the empty string |
| Text.Contains | ReactJS/sec-dashboard-a001/main.jsx:284 | `includes`: the term occurs at some position; described by `Text.ContainsEmpty`, `Text.ContainsTransitive`, `Text.ContainsAcrossSpace` and the `Join` lemmas |
| Text.ContainsTransitive | ReactJS/sec-dashboard-a001/main.jsx:284 | a substring of a substring is a substring |
| Text.ContainsLower | ReactJS/sec-dashboard-a001/main.jsx:281-284 | a substring stays a substring once both texts are lower-cased |
| Text.ContainsAcrossSpace | ReactJS/sec-dashboard-a001/main.jsx:273-284 | a space-free term found in `a + " " + b` is found in `a` or in `b` |
| Text.JoinContainsPart | ReactJS/sec-dashboard-a001/main.jsx:273-280 | every joined part occurs in the joined text |
| Text.Join | ReactJS/sec-dashboard-a001/main.jsx:273-280 | `join(" ")` of the searched fields; described by `Text.JoinContainsPart`, `Text.JoinContainsAdjacent`, `Text.JoinContainsOnlyParts` and `Text.LowerJoin` |
| Text.JoinContainsAdjacent | ReactJS/sec-dashboard-a001/main.jsx:273-280 | two neighbouring parts, with the separator between them, occur in the joined text |
| Text.JoinContainsOnlyParts | ReactJS/sec-dashboard-a001/main.jsx:273-280 | a space-free term found in a space-joined text is found in one of the parts |
| Text.LowerJoin | ReactJS/sec-dashboard-a001/main.jsx:273-281 | lower-casing the joined fields equals joining the lower-cased fields |
| Text.NatToString | ReactJS/sec-dashboard-a001/main.jsx:289 | a non-negative number renders as at least one decimal digit, with no leading zero unless it is 0 |
| Text.IntToString | ReactJS/sec-dashboard-a001/main.jsx:289 | a number renders as at least one character, starting with '-' exactly when it is negative |
| Text.ParseNatToString | ReactJS/sec-dashboard-a001/main.jsx:289 | reading back a rendered non-negative number gives that number |
| Text.ParseIntToString | ReactJS/sec-dashboard-a001/main.jsx:289 | reading back a rendered number gives that number |
| Text.IntToStringInjective | ReactJS/sec-dashboard-a001/main.jsx:289 | two numbers render alike exactly when they are equal |
| Records.TitleOrMessage | ReactJS/sec-dashboard-a001/main.jsx:274 | a non-empty title is searched; a null or empty title falls back to the message, and a null message to "" |
| Records.OrEmpty | ReactJS/sec-dashboard-a001/main.jsx:273-280 | `join` prints a `null` field as ""; used by `Records.TitleOrMessage` for a `null` message |
| Records.SearchFields | ReactJS/sec-dashboard-a001/main.jsx:273-279 | the five searched fields, title (or message), repository, user, file name and hash, in that order; used by `Query.FieldHitMatches` and `Query.SpaceFreeTermMatchesField` |
| Records.SearchText | ReactJS/sec-dashboard-a001/main.jsx:273-281 | the lower-cased, space-joined fields; `Query.SpaceFreeTermMatchesField` and `Query.AdjacentFieldsMatch` say which terms it contains |
| Records.OptionalNumberText | ReactJS/sec-dashboard-a001/main.jsx:300 | a pull-request number as the template literal prints it, "null" for `null`; `Records.PullLinkIdentifiesNumber` shows that numbered links are told apart by it |
| Records.BaseUrl | ReactJS/sec-dashboard-a001/main.jsx:298 | `baseUrl`, `https://github.com/` followed by the repository; `Records.Link` proves every link starts with it |
| Records.Link | ReactJS/sec-dashboard-a001/main.jsx:297-305 | every link starts with `https://github.com/` and the repository; a pull request gets `/pull/` and its number ("null" when it is `null`); a commit or code finding gets `/commit/` and its hash; any other type gets the repository page |
| Records.LinkSeparatesKinds | ReactJS/sec-dashboard-a001/main.jsx:297-305 | in one repository, a pull-request link never equals a commit link, and both extend the repository page |
| Records.PullLinkIdentifiesNumber | ReactJS/sec-dashboard-a001/main.jsx:299-300 | two numbered pull requests of one repository share a link exactly when they share the number |
| Records.CommitLinkIdentifiesSha | ReactJS/sec-dashboard-a001/main.jsx:301-302 | two commit or code records of one repository share a link exactly when they share the hash |
| Query.Initial | ReactJS/sec-dashboard-a001/main.jsx:246-253 | the dashboard starts with an empty search term and every selector unset |
| Query.SetSearchTerm | ReactJS/sec-dashboard-a001/main.jsx:400 | typing in the search box replaces the search term and leaves every selector as it was |
| Query.SetFacet | ReactJS/sec-dashboard-a001/main.jsx:426-494 | a selector's change sets that selector to the chosen value; the search term and the other three selectors stay as they were |
| Query.ClearFilters | ReactJS/sec-dashboard-a001/main.jsx:333-336 | clearing empties the search term and all four selectors |
| Query.MatchesSearch | ReactJS/sec-dashboard-a001/main.jsx:283-284 | an empty term matches every record, otherwise the lower-cased term must occur in the search text; described by `Query.SearchCaseInsensitive`, `Query.FieldHitMatches`, `Query.SpaceFreeTermMatchesField` and `Query.AdjacentFieldsMatch` |
| Query.SearchGuardRedundant | ReactJS/sec-dashboard-a001/main.jsx:283-284 | the `searchTerm === ""` guard changes no result: matching is exactly "the search text includes the lower-cased term", since every text includes "" |
| Query.FacetHolds | ReactJS/sec-dashboard-a001/main.jsx:287-291 | one selector's test: unset, or equal to the type, the rendered year, the non-null state or the repository; described by `Query.YearFacetExact` and `Facets.SingleFacetMatches` |
| Query.MatchesFilters | ReactJS/sec-dashboard-a001/main.jsx:287-291 | the conjunction of the four selector tests; `Query.RefinedMatches` shows that more selectors accept fewer records |
| Query.Matches | ReactJS/sec-dashboard-a001/main.jsx:293 | the search test and the selector tests together; `Query.FilterMembership` ties it to the listed records |
| Query.Filter | ReactJS/sec-dashboard-a001/main.jsx:270-295 | the result is a subsequence of the records, in their original order, and every record in it matches the search and the selectors |
| Query.FilterMembership | ReactJS/sec-dashboard-a001/main.jsx:270-295 | a record is listed exactly when it is one of the records and it matches |
| Query.FilterAppend | ReactJS/sec-dashboard-a001/main.jsx:271 | filtering a concatenation is the concatenation of the filtered parts, so order is preserved |
| Query.FilterLength | ReactJS/sec-dashboard-a001/main.jsx:270-295 | the result has as many records as match, and never more than the input |
| Query.CountMatches | ReactJS/sec-dashboard-a001/main.jsx:510 | the number of matching records, shown as the result count; `Query.FilterLength` proves it is the length of the list |
| Query.FilterCongruent | ReactJS/sec-dashboard-a001/main.jsx:270-295 | two queries that accept the same records list the same records |
| Query.FilterNoQuery | ReactJS/sec-dashboard-a001/main.jsx:283-291 | with an empty search and no selector set, every record is listed, in order |
| Query.ClearFiltersShowsAll | ReactJS/sec-dashboard-a001/main.jsx:333-336 | after clearing, every record is listed, in order |
| Query.FilterIdempotent | ReactJS/sec-dashboard-a001/main.jsx:270-295 | filtering the filtered list again changes nothing |
| Query.SearchCaseInsensitive | ReactJS/sec-dashboard-a001/main.jsx:281-284 | two search terms that lower-case alike list the same records |
| Query.FieldHitMatches | ReactJS/sec-dashboard-a001/main.jsx:273-284 | a term found, whatever the case, in any one of the five searched fields makes the record match |
| Query.SpaceFreeTermMatchesField | ReactJS/sec-dashboard-a001/main.jsx:273-284 | a non-empty term without spaces matches exactly when it occurs, whatever the case, in one of the five fields |
| Query.AdjacentFieldsMatch | ReactJS/sec-dashboard-a001/main.jsx:273-284 | a term found in two neighbouring fields joined by a space matches, so a match may cross a field boundary |
| Query.YearFacetExact | ReactJS/sec-dashboard-a001/main.jsx:289 | the year selector set to the rendering of year y keeps a record exactly when its year is y |
| Query.RefinedMatches | ReactJS/sec-dashboard-a001/main.jsx:286-293 | a record matching a query with more selectors set also matches the query with fewer |
| Query.FilterRefines | ReactJS/sec-dashboard-a001/main.jsx:270-295 | setting more selectors lists a subsequence of what fewer selectors list |
| Query.SetFacetNarrows | ReactJS/sec-dashboard-a001/main.jsx:426-494 | choosing a value for an unset selector never adds records and keeps the rest in order |
| Facets.FirstIndex | ReactJS/sec-dashboard-a001/main.jsx:257 | the position of the first occurrence of a value |
| Facets.Distinct | ReactJS/sec-dashboard-a001/main.jsx:257-264 | `[...new Set(s)]` has no repeated value, and it holds exactly the values of `s` |
| Facets.DistinctFirstOccurrenceOrder | ReactJS/sec-dashboard-a001/main.jsx:257-264 | the unique values come in the order of their first occurrence in the input |
| Facets.InsertDesc | ReactJS/sec-dashboard-a001/main.jsx:258-260 | inserting into a descending list keeps it descending and adds exactly that value |
| Facets.SortDesc | ReactJS/sec-dashboard-a001/main.jsx:258-260 | `sort((a, b) => b - a)` yields a descending permutation of its input |
| Facets.SortDescMembers | ReactJS/sec-dashboard-a001/main.jsx:258-260 | sorting neither adds nor drops a value |
| Facets.SortDescStrict | ReactJS/sec-dashboard-a001/main.jsx:258-260 | sorting values without repeats gives a strictly descending list |
| Facets.TruthyStatesMembers | ReactJS/sec-dashboard-a001/main.jsx:261-263 | `filter(Boolean)` keeps exactly the non-null, non-empty states |
| Facets.TruthyStates | ReactJS/sec-dashboard-a001/main.jsx:262 | `map(state).filter(Boolean)`; `Facets.TruthyStatesMembers` says which states it keeps |
| Facets.Kinds | ReactJS/sec-dashboard-a001/main.jsx:257 | `sampleData.map((item) => item.type)`; `Facets.TypeOptionsExact` says which types it yields |
| Facets.Years | ReactJS/sec-dashboard-a001/main.jsx:258 | `sampleData.map((item) => item.year)`; `Facets.YearOptionsExact` says which years it yields |
| Facets.Repos | ReactJS/sec-dashboard-a001/main.jsx:264 | `sampleData.map((item) => item.repo)`; `Facets.RepoOptionsExact` says which repositories it yields |
| Facets.OptionsDistinct | ReactJS/sec-dashboard-a001/main.jsx:256-267 | no selector offers a value twice, and the years are listed newest first |
| Facets.Options | ReactJS/sec-dashboard-a001/main.jsx:256-267 | `filterOptions`; described by `Facets.OptionsDistinct` and the four `OptionsExact` lemmas |
| Facets.TypeOptionsExact | ReactJS/sec-dashboard-a001/main.jsx:257 | a type is offered exactly when some record has it |
| Facets.YearOptionsExact | ReactJS/sec-dashboard-a001/main.jsx:258-260 | a year is offered exactly when some record has it |
| Facets.StateOptionsExact | ReactJS/sec-dashboard-a001/main.jsx:261-263 | a state is offered exactly when it is non-empty and some record has it |
| Facets.RepoOptionsExact | ReactJS/sec-dashboard-a001/main.jsx:264 | a repository is offered exactly when some record has it |
| Facets.SingleFacetMatches | ReactJS/sec-dashboard-a001/main.jsx:283-293 | with only one selector set, a record matches exactly when that selector accepts it |
| Facets.OptionWitness | ReactJS/sec-dashboard-a001/main.jsx:433-499 | every value a selector offers is carried by some record |
| Facets.OptionValues | ReactJS/sec-dashboard-a001/main.jsx:433-499 | the option values each selector offers, years as decimal text; `Facets.OptionWitness` and `Facets.OptionRoundTrip` are about them |
| Facets.OptionRoundTrip | ReactJS/sec-dashboard-a001/main.jsx:426-499 | choosing any offered value never empties the list, and the list then holds exactly the records that carry that value |
| Facets.CarriedIsOffered | ReactJS/sec-dashboard-a001/main.jsx:256-267 | a non-empty value that some record carries is offered by that record's selector |
| Facets.NotOfferedEmpty | ReactJS/sec-dashboard-a001/main.jsx:426-499 | a non-empty value the selector does not offer, chosen alone, lists no record; it is no error |
| Facets.OfferedIffListed | ReactJS/sec-dashboard-a001/main.jsx:426-499 | a non-empty value chosen alone lists some record exactly when its selector offers it |
| Sample.SampleData | ReactJS/sec-dashboard-a001/main.jsx:24-183 | `mockData.vulnerabilities`, bound to `sampleData` at line 242: the twelve records in source order; `Sample.ScenarioShowsAll` lists them all |
| Sample.Record0 | ReactJS/sec-dashboard-a001/main.jsx:26-38 | record 1 of the sample data, field by field |
| Sample.Record1 | ReactJS/sec-dashboard-a001/main.jsx:39-51 | record 2 of the sample data, field by field |
| Sample.Record2 | ReactJS/sec-dashboard-a001/main.jsx:52-64 | record 3 of the sample data, field by field |
| Sample.Record3 | ReactJS/sec-dashboard-a001/main.jsx:65-77 | record 4 of the sample data, field by field |
| Sample.Record4 | ReactJS/sec-dashboard-a001/main.jsx:78-90 | record 5 of the sample data, field by field |
| Sample.Record5 | ReactJS/sec-dashboard-a001/main.jsx:91-103 | record 6 of the sample data, field by field |
| Sample.Record6 | ReactJS/sec-dashboard-a001/main.jsx:104-116 | record 7 of the sample data, field by field |
| Sample.Record7 | ReactJS/sec-dashboard-a001/main.jsx:117-129 | record 8 of the sample data, field by field |
| Sample.Record8 | ReactJS/sec-dashboard-a001/main.jsx:130-142 | record 9 of the sample data, field by field |
| Sample.Record9 | ReactJS/sec-dashboard-a001/main.jsx:143-155 | record 10 of the sample data, field by field |
| Sample.Record10 | ReactJS/sec-dashboard-a001/main.jsx:156-168 | record 11 of the sample data, field by field |
| Sample.Record11 | ReactJS/sec-dashboard-a001/main.jsx:169-181 | record 12 of the sample data, field by field |
| Sample.ScenarioShowsAll | ReactJS/sec-dashboard-a001/main.jsx:242-253 | the initial dashboard lists all twelve sample records, in order |
| Sample.ScenarioPullLink | ReactJS/sec-dashboard-a001/main.jsx:39-51 | the pull request of `acme/api-server` links to `https://github.com/acme/api-server/pull/456` |
| Sample.ScenarioCommitLink | ReactJS/sec-dashboard-a001/main.jsx:26-38 | the commit of `acme/web-app` links to `https://github.com/acme/web-app/commit/a1b2c3d4e5f6` |
| Sample.SecurityPullRequests | ReactJS/sec-dashboard-a001/main.jsx:400-427 | the query with type "pull_request" and search "security" |
| Sample.DependencyTitleMentionsSecurity | ReactJS/sec-dashboard-a001/main.jsx:69 | the dependency update's title contains "security", whatever the case |
| Sample.ScenarioSecurityInTitle | ReactJS/sec-dashboard-a001/main.jsx:65-77 | type "pull_request" with search "security" keeps the dependency update |
| Sample.ScenarioSecurityInUser | ReactJS/sec-dashboard-a001/main.jsx:130-142 | type "pull_request" with search "security" also keeps the Content Security Policy pull request |
| Sample.ScenarioYear | ReactJS/sec-dashboard-a001/main.jsx:52-77 | year "2023" keeps a 2023 record and drops a 2024 one |

## Left out

- Rendering: the JSX markup, `getTypeIcon`, `getStateStyle`, type labels, the empty-state message and the result count text. They only display data.
- React hooks: `useState`, `useMemo` and re-rendering. The model computes the same values directly from the query state.
- The tab bar, `activeTab`, `showFilters` and the analytics and reports placeholder tabs. They do not affect which records are listed.
- `uiConfig` and the other display text.
- Lower: only ASCII letters are lower-cased. JavaScript's `toLowerCase` also maps non-ASCII letters, and for a few of them it changes the length.
- Options: the year selector's values are the years rendered with `Text.IntToString`. The model assumes React turns the numeric `value` attribute into that decimal text.
- Sample: the exact result lists are not proved for the sample set. That covers the search "sql", the search "nonexistent-term-xyz", the full two-record result of the "security" query and the full year-2023 list. The single-record facts above are proved instead, and the general lemmas in `Query` cover the behaviour itself.
- Records.Link: a record with no `pr_number` property at all is modelled like one whose `pr_number` is `null`. JavaScript would print "undefined" in its link, not "null". Every sample record has the property.
- Text.IntToString: every digit is written out. JavaScript writes numbers of magnitude 1e21 or more in exponent form, and above 2^53 numbers are not exact. Years are four-digit numbers, far below both limits, so the year selector is unaffected.
- Records: a record's `year` is modelled as an integer. The sample data never holds a non-integer year.
