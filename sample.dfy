/**
 The twelve records the dashboard ships with (`mockData.vulnerabilities`,
 bound to `sampleData`) and what the query layer does with them.
 */
module Sample {
  import opened Text
  import opened Records
  import opened Query
  import opened Facets

  const Record0: Vulnerability :=
    Vulnerability("acme/web-app", "commit", 2024, Some("Fix SQL injection vulnerability in user authentication"), None, None, None, "security-team", "auth/login.js", "a1b2c3d4e5f6", Some("Fix SQL injection vulnerability in user authentication"))
  const Record1: Vulnerability :=
    Vulnerability("acme/api-server", "pull_request", 2024, Some("Patch XSS vulnerability in comment system"), Some(123), Some(456), Some("merged"), "dev-alice", "comments/render.js", "b2c3d4e5f6g7", Some("Patch XSS vulnerability in comment system"))
  const Record2: Vulnerability :=
    Vulnerability("acme/mobile-app", "code", 2023, Some("Remove hardcoded API keys"), None, None, None, "dev-bob", "config/secrets.js", "c3d4e5f6g7h8", Some("Remove hardcoded API keys"))
  const Record3: Vulnerability :=
    Vulnerability("acme/web-app", "pull_request", 2024, Some("Update dependencies to fix security vulnerabilities"), Some(789), Some(321), Some("open"), "dependabot", "package.json", "d4e5f6g7h8i9", Some("Update dependencies to fix security vulnerabilities"))
  const Record4: Vulnerability :=
    Vulnerability("acme/api-server", "commit", 2023, Some("Implement rate limiting to prevent DoS attacks"), None, None, None, "security-lead", "middleware/rateLimit.js", "e5f6g7h8i9j0", Some("Implement rate limiting to prevent DoS attacks"))
  const Record5: Vulnerability :=
    Vulnerability("acme/dashboard", "pull_request", 2024, Some("Fix CSRF vulnerability in admin panel"), Some(555), Some(777), Some("closed"), "admin-user", "admin/csrf-protection.js", "f6g7h8i9j0k1", Some("Fix CSRF vulnerability in admin panel"))
  const Record6: Vulnerability :=
    Vulnerability("acme/payment-service", "commit", 2024, Some("Encrypt sensitive payment data"), None, None, None, "crypto-team", "payment/encryption.js", "g7h8i9j0k1l2", Some("Encrypt sensitive payment data"))
  const Record7: Vulnerability :=
    Vulnerability("acme/user-service", "code", 2023, Some("Remove debug logs containing passwords"), None, None, None, "dev-charlie", "auth/debug.js", "h8i9j0k1l2m3", Some("Remove debug logs containing passwords"))
  const Record8: Vulnerability :=
    Vulnerability("acme/web-app", "pull_request", 2024, Some("Implement Content Security Policy headers"), Some(999), Some(1001), Some("merged"), "security-team", "middleware/security-headers.js", "i9j0k1l2m3n4", Some("Implement Content Security Policy headers"))
  const Record9: Vulnerability :=
    Vulnerability("acme/notification-service", "commit", 2023, Some("Fix authentication bypass in webhook handler"), None, None, None, "webhook-team", "webhooks/auth.js", "j0k1l2m3n4o5", Some("Fix authentication bypass in webhook handler"))
  const Record10: Vulnerability :=
    Vulnerability("acme/mobile-app", "pull_request", 2024, Some("Patch insecure direct object reference"), Some(202), Some(404), Some("open"), "mobile-dev", "api/user-data.js", "k1l2m3n4o5p6", Some("Patch insecure direct object reference"))
  const Record11: Vulnerability :=
    Vulnerability("acme/analytics", "code", 2023, Some("Remove sensitive data from error messages"), None, None, None, "data-team", "error-handler/messages.js", "l2m3n4o5p6q7", Some("Remove sensitive data from error messages"))

  /** `sampleData`. */
  const SampleData: seq<Vulnerability> := [
    Record0, Record1, Record2, Record3, Record4, Record5, Record6, Record7, Record8, Record9, Record10, Record11]


  /** With no search term and no facet selected, the list shows every record
      in its original order. */
  lemma ScenarioShowsAll()
    ensures Filter(Initial(), SampleData) == SampleData
  {
    FilterNoQuery(SampleData);
  }

  /** A pull request links to its number. The expected link is written as
      its parts, prefix, repository, "/pull/" and number, which the verifier
      compares far more cheaply than one long literal; the two are equal. */
  lemma ScenarioPullLink()
    ensures Link(Record1) == GitHubPrefix + "acme/api-server" + "/pull/" + "456"
  {
    assert Record1.kind == "pull_request";
    assert IntToString(456) == "456";
  }

  /** A commit links to its hash. The expected link is written as its parts
      for the same reason as in `ScenarioPullLink`. */
  lemma ScenarioCommitLink()
    ensures Link(Record0) == GitHubPrefix + "acme/web-app" + "/commit/" + "a1b2c3d4e5f6"
  {
    assert Record0.kind == "commit";
  }

  /** The query of type "pull_request" together with the search "security". */
  function SecurityPullRequests(): (q: QueryState)
    ensures q.searchTerm == "security" && q.filters == Filters("pull_request", "", "", "")
  {
    SetSearchTerm(SetFacet(Initial(), TypeFacet, "pull_request"), "security")
  }

  /** "security" occurs, whatever the case, in the dependency update's title.
      The title comes in as a parameter equal to the literal, rather than as
      `Record3.title`, so that the proof looks at the characters it needs one
      index at a time instead of unfolding the whole record constant. */
  lemma DependencyTitleMentionsSecurity(t: string)
    requires t == "Update dependencies to fix security vulnerabilities"
    ensures Contains(Lower(t), Lower("security"))
  {
    assert t[27] == 's'; assert t[28] == 'e'; assert t[29] == 'c'; assert t[30] == 'u';
    assert t[31] == 'r'; assert t[32] == 'i'; assert t[33] == 't'; assert t[34] == 'y';
    assert t[27..35] == "security";
    assert OccursAt(t, "security", 27);
    ContainsLower(t, "security");
  }

  /** The open dependency update matches: the word is in its title. */
  lemma ScenarioSecurityInTitle()
    ensures Matches(SecurityPullRequests(), Record3)
  {
    DependencyTitleMentionsSecurity(TitleOrMessage(Record3));
    FieldHitMatches("security", Record3, 0);
  }

  /** The Content Security Policy pull request matches too: the word is,
      among other fields, in its user name. */
  lemma ScenarioSecurityInUser()
    ensures Matches(SecurityPullRequests(), Record8)
  {
    assert OccursAt(Lower("security-team"), Lower("security"), 0);
    FieldHitMatches("security", Record8, 2);
  }

  /** Year "2023" keeps a 2023 record and drops a 2024 one. The query is a
      parameter fixed by the `requires`, which keeps its fields symbolic and
      the proof small. */
  lemma ScenarioYear(q: QueryState)
    requires q == SetFacet(Initial(), YearFacet, "2023")
    ensures Matches(q, Record2) && !Matches(q, Record3)
  {
    assert IntToString(2023) == "2023";
    assert IntToString(2024) == "2024";
  }
}
