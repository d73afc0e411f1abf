/**
 One vulnerability record of the dashboard and the link that points at the
 place the record came from on GitHub.
 */
module Records {
  import opened Text

  /** A JavaScript value that may be `null`. */
  datatype Option<+T> = None | Some(value: T)

  /** A vulnerability record. `kind` is the record's `type` field: the sample
      data uses "commit", "pull_request" and "code", but nothing in the
      component enforces that, so it stays a string. `title`, `message`,
      `state`, `prId` and `prNumber` may be `null`. */
  datatype Vulnerability = Vulnerability(
    repo: string,
    kind: string,
    year: int,
    title: Option<string>,
    prId: Option<int>,
    prNumber: Option<int>,
    state: Option<string>,
    user: string,
    filename: string,
    sha: string,
    message: Option<string>)

  /** Renders an optional string the way `[...].join(" ")` does: `null`
      becomes the empty string. */
  function OrEmpty(s: Option<string>): string
  {
    match s
    case None => ""
    case Some(v) => v
  }

  /** `item.title || item.message`: a null or empty title falls back to the
      message (itself rendered as "" when null). */
  function TitleOrMessage(v: Vulnerability): (t: string)
    ensures v.title.Some? && v.title.value != "" ==> t == v.title.value
    ensures v.title.None? || v.title == Some("") ==> t == OrEmpty(v.message)
  {
    if v.title.Some? && v.title.value != "" then v.title.value else OrEmpty(v.message)
  }

  /** The five searchable fields, in the order they are joined. */
  function SearchFields(v: Vulnerability): seq<string>
  {
    [TitleOrMessage(v), v.repo, v.user, v.filename, v.sha]
  }

  /** The lower-cased, space-joined text a search term is looked up in. */
  function SearchText(v: Vulnerability): string
  {
    Lower(Join(SearchFields(v), " "))
  }

  /** `${value}` of a number that may be `null` in a template literal:
      `null` prints as "null". */
  function OptionalNumberText(n: Option<int>): string
  {
    match n
    case None => "null"
    case Some(k) => IntToString(k)
  }

  const GitHubPrefix: string := "https://github.com/"

  /** The repository page every link starts from. */
  function BaseUrl(v: Vulnerability): string
  {
    GitHubPrefix + v.repo
  }

  /** `generateGitHubLink`: pull requests link to their number, commits and
      code findings to their commit, anything else to the repository. */
  function Link(v: Vulnerability): (url: string)
    ensures |BaseUrl(v)| <= |url| && url[..|BaseUrl(v)|] == BaseUrl(v)
    ensures v.kind == "pull_request" ==> url == BaseUrl(v) + "/pull/" + OptionalNumberText(v.prNumber)
    ensures v.kind == "commit" || v.kind == "code" ==> url == BaseUrl(v) + "/commit/" + v.sha
    ensures v.kind !in {"pull_request", "commit", "code"} ==> url == BaseUrl(v)
  {
    var base := GitHubPrefix + v.repo;
    if v.kind == "pull_request" then
      base + "/pull/" + OptionalNumberText(v.prNumber)
    else if v.kind == "commit" || v.kind == "code" then
      base + "/commit/" + v.sha
    else
      base
  }

  /** The part of a link after the repository page tells the record kinds
      apart: a pull-request link never equals a commit link of the same
      repository, and both are longer than the repository page. */
  lemma LinkSeparatesKinds(p: Vulnerability, c: Vulnerability)
    requires p.repo == c.repo
    requires p.kind == "pull_request" && (c.kind == "commit" || c.kind == "code")
    ensures Link(p) != Link(c)
    ensures |Link(p)| > |BaseUrl(p)| && |Link(c)| > |BaseUrl(c)|
  {
    var n := |BaseUrl(p)|;
    assert Link(p)[n + 1] == 'p';
    assert Link(c)[n + 1] == 'c';
  }

  /** Two pull requests of one repository get the same link exactly when they
      carry the same number. */
  lemma PullLinkIdentifiesNumber(p: Vulnerability, q: Vulnerability)
    requires p.repo == q.repo && p.kind == "pull_request" && q.kind == "pull_request"
    requires p.prNumber.Some? && q.prNumber.Some?
    ensures Link(p) == Link(q) <==> p.prNumber == q.prNumber
  {
    var prefix := BaseUrl(p) + "/pull/";
    assert Link(p) == prefix + IntToString(p.prNumber.value);
    assert Link(q) == prefix + IntToString(q.prNumber.value);
    if Link(p) == Link(q) {
      assert IntToString(p.prNumber.value) == Link(p)[|prefix|..];
      assert IntToString(q.prNumber.value) == Link(q)[|prefix|..];
      IntToStringInjective(p.prNumber.value, q.prNumber.value);
    }
  }

  /** Two commit or code records of one repository get the same link exactly
      when they carry the same commit hash. */
  lemma CommitLinkIdentifiesSha(p: Vulnerability, q: Vulnerability)
    requires p.repo == q.repo
    requires p.kind in {"commit", "code"} && q.kind in {"commit", "code"}
    ensures Link(p) == Link(q) <==> p.sha == q.sha
  {
    var prefix := BaseUrl(p) + "/commit/";
    assert Link(p) == prefix + p.sha;
    assert Link(q) == prefix + q.sha;
    if Link(p) == Link(q) {
      assert p.sha == Link(p)[|prefix|..];
      assert q.sha == Link(q)[|prefix|..];
    }
  }
}
