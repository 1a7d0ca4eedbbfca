/** Repository-URL classification of the content script (`isRepoUrl` in the
    helpers file): a switch over eleven hosts on the path segments. */
module RepoUrl {
  import opened Js
  import opened UrlPath

  /** First segments that name a site page rather than an owner: the source's one set
      literal, in the source's order, written as four parts. */
  const ReservedWords: seq<string> := ReservedAccounts + ReservedSite + ReservedListings + ReservedFeatures

  const ReservedAccounts: seq<string> := [
    "topics", "explore", "features", "issues", "pulls",
    "marketplace", "orgs", "enterprise", "settings",
    "sponsors", "login", "logout", "signup", "register"
  ]

  const ReservedSite: seq<string> := [
    "notifications", "dashboard", "admin", "administrator",
    "help", "support", "docs", "api", "about", "contact",
    "security", "apps", "blog", "events", "community"
  ]

  const ReservedListings: seq<string> := [
    "organizations", "repositories", "search", "trending",
    "gist", "gist.github", "releases", "archive", "new",
    "watching", "stars", "forks", "followers", "following"
  ]

  const ReservedFeatures: seq<string> := [
    "milestones", "projects", "teams", "labels", "topics",
    "codespaces", "actions", "discussions", "pages"
  ]

  /** `words.includes(s)`, one word at a time. */
  predicate InList(s: string, words: seq<string>)
    decreases |words|
  {
    words != [] && (words[0] == s || InList(s, words[1..]))
  }

  /** `reservedPaths.has(s)`. */
  predicate IsReserved(s: string) {
    InList(s, ReservedWords)
  }

  /** The word-by-word search finds exactly the words of the list. */
  lemma {:induction false} InListIff(s: string, words: seq<string>)
    ensures InList(s, words) <==> s in words
    decreases |words|
  {
    if words != [] {
      InListIff(s, words[1..]);
      assert words == [words[0]] + words[1..];
    }
  }

  /** Hosts laid out as `/owner/repo`. */
  const ForgeHosts: set<string> := {"github.com", "gitlab.com", "codeberg.org", "bitbucket.org"}

  /** `parts.length >= 2 && !reservedPaths.has(parts[0])` */
  predicate OwnerAndRepo(parts: seq<string>) {
    |parts| >= 2 && !IsReserved(parts[0])
  }

  /** `parts[0] === prefix && parts.length >= min`; an absent first segment is never `prefix`. */
  predicate RegistryPath(parts: seq<string>, prefix: string, min: nat) {
    |parts| >= 1 && parts[0] == prefix && |parts| >= min
  }

  /** The host switch, on already-split segments. */
  predicate HostAccepts(host: string, parts: seq<string>) {
    if host == "github.com" || host == "gitlab.com" then OwnerAndRepo(parts)
    else if host == "codeberg.org" then OwnerAndRepo(parts)
    else if host == "bitbucket.org" then OwnerAndRepo(parts)
    else if host == "git.sr.ht" then |parts| >= 2 || (|parts| >= 1 && "~" <= parts[0])
    else if host == "launchpad.net" then |parts| >= 1 && !IsReserved(parts[0])
    else if host == "www.npmjs.com" || host == "npmjs.com" then RegistryPath(parts, "package", 2)
    else if host == "hub.docker.com" then RegistryPath(parts, "r", 3)
    else if host == "pypi.org" then RegistryPath(parts, "project", 2)
    else if host == "crates.io" then RegistryPath(parts, "crates", 2)
    else if host == "packagist.org" then RegistryPath(parts, "packages", 3)
    else false
  }

  /** `isRepoUrl(url)`; `None` is a URL the `URL` constructor rejects. */
  predicate IsRepoUrl(u: Option<Url>) {
    match u
    case None => false
    case Some(url) => HostAccepts(url.hostname, Segments(url.pathname))
  }

  /** github.com, gitlab.com, codeberg.org, bitbucket.org: at least two segments and a
      first segment that is not reserved. */
  lemma ForgeRule(url: Url)
    requires url.hostname in ForgeHosts
    ensures IsRepoUrl(Some(url)) <==>
              |Segments(url.pathname)| >= 2 && !IsReserved(Segments(url.pathname)[0])
  {
  }

  /** git.sr.ht: two segments, or one that starts with `~`; launchpad.net: one segment
      that is not reserved. */
  lemma SourcehutAndLaunchpadRule(url: Url)
    ensures url.hostname == "git.sr.ht" ==>
              (IsRepoUrl(Some(url)) <==>
                 |Segments(url.pathname)| >= 2
                 || (|Segments(url.pathname)| == 1 && "~" <= Segments(url.pathname)[0]))
    ensures url.hostname == "launchpad.net" ==>
              (IsRepoUrl(Some(url)) <==>
                 |Segments(url.pathname)| >= 1 && !IsReserved(Segments(url.pathname)[0]))
  {
  }

  /** Registries: a fixed first segment and a minimum segment count. */
  lemma RegistryRule(url: Url)
    ensures var parts := Segments(url.pathname);
            && (url.hostname in {"www.npmjs.com", "npmjs.com"} ==>
                  (IsRepoUrl(Some(url)) <==> |parts| >= 2 && parts[0] == "package"))
            && (url.hostname == "hub.docker.com" ==>
                  (IsRepoUrl(Some(url)) <==> |parts| >= 3 && parts[0] == "r"))
            && (url.hostname == "pypi.org" ==>
                  (IsRepoUrl(Some(url)) <==> |parts| >= 2 && parts[0] == "project"))
            && (url.hostname == "crates.io" ==>
                  (IsRepoUrl(Some(url)) <==> |parts| >= 2 && parts[0] == "crates"))
            && (url.hostname == "packagist.org" ==>
                  (IsRepoUrl(Some(url)) <==> |parts| >= 3 && parts[0] == "packages"))
  {
  }

  /** Every other host, and every unparseable URL, is not a repository URL. */
  lemma OtherHostsRejected(u: Option<Url>)
    requires u.Some? ==> u.value.hostname !in ForgeHosts + {
      "git.sr.ht", "launchpad.net", "www.npmjs.com", "npmjs.com", "hub.docker.com",
      "pypi.org", "crates.io", "packagist.org"}
    ensures !IsRepoUrl(u)
  {
  }

  /** Only the host and the segment list matter: the query, the fragment, doubled and
      trailing slashes do not change the answer. */
  lemma SlashAndQueryInsensitive(host: string, a: string, b: string, q1: string, h1: string, q2: string, h2: string)
    ensures IsRepoUrl(Some(Url(host, a + "//" + b, q1, h1))) == IsRepoUrl(Some(Url(host, a + "/" + b, q2, h2)))
    ensures IsRepoUrl(Some(Url(host, a + "/", q1, h1))) == IsRepoUrl(Some(Url(host, a, q2, h2)))
  {
    DoubledSlash(a, b);
    TrailingSlash(a);
  }

  /** The classifications the unit tests pin down. */
  lemma AcceptsOctocat()
    ensures IsRepoUrl(Some(Url("github.com", "/octocat/Hello-World", "", "")))
  {
    OctocatSegments();
    OctocatNotReserved();
  }

  lemma OctocatSegments()
    ensures Segments("/octocat/Hello-World") == ["octocat", "Hello-World"]
  {
    assert PathOf(["octocat", "Hello-World"]) == "/octocat/Hello-World";
    SegmentsOfPath(["octocat", "Hello-World"]);
  }

  lemma OctocatNotReserved()
    ensures !IsReserved("octocat")
  {
    InListIff("octocat", ReservedWords);
    assert "octocat" !in ReservedAccounts;
    assert "octocat" !in ReservedSite;
    assert "octocat" !in ReservedListings;
    assert "octocat" !in ReservedFeatures;
  }

  lemma RejectsExplore()
    ensures !IsRepoUrl(Some(Url("github.com", "/explore", "", "")))
  {
    assert PathOf(["explore"]) == "/explore";
    SegmentsOfPath(["explore"]);
  }

  lemma AcceptsNpmPackage()
    ensures IsRepoUrl(Some(Url("www.npmjs.com", "/package/express", "", "")))
  {
    assert PathOf(["package", "express"]) == "/package/express";
    SegmentsOfPath(["package", "express"]);
  }

  lemma RejectsUnknownHost()
    ensures !IsRepoUrl(Some(Url("example.com", "/foo/bar", "", "")))
  {
    OtherHostsRejected(Some(Url("example.com", "/foo/bar", "", "")));
  }
}
