/** The older repository-URL classification of the monolithic script: seven hosts,
    with the same reserved first segments and registry rules. */
module LegacyRepoUrl {
  import opened Js
  import opened UrlPath
  import RepoUrl

  /** The host switch of the older script. */
  predicate HostAccepts(host: string, parts: seq<string>) {
    if host == "github.com" || host == "gitlab.com" then RepoUrl.OwnerAndRepo(parts)
    else if host == "www.npmjs.com" || host == "npmjs.com" then RepoUrl.RegistryPath(parts, "package", 2)
    else if host == "hub.docker.com" then RepoUrl.RegistryPath(parts, "r", 3)
    else if host == "pypi.org" then RepoUrl.RegistryPath(parts, "project", 2)
    else if host == "crates.io" then RepoUrl.RegistryPath(parts, "crates", 2)
    else if host == "packagist.org" then RepoUrl.RegistryPath(parts, "packages", 3)
    else false
  }

  /** `isRepoUrl(url)` of the older script; `None` is a URL the `URL` constructor rejects. */
  predicate IsRepoUrl(u: Option<Url>) {
    match u
    case None => false
    case Some(url) => HostAccepts(url.hostname, Segments(url.pathname))
  }

  /** The hosts the older script knows. */
  const LegacyHosts: set<string> := {
    "github.com", "gitlab.com", "www.npmjs.com", "npmjs.com", "hub.docker.com",
    "pypi.org", "crates.io", "packagist.org"}

  /** github.com and gitlab.com: two segments and a first segment that is not reserved. */
  lemma ForgeRule(url: Url)
    requires url.hostname == "github.com" || url.hostname == "gitlab.com"
    ensures IsRepoUrl(Some(url)) <==>
              |Segments(url.pathname)| >= 2 && !RepoUrl.IsReserved(Segments(url.pathname)[0])
  {
  }

  /** On every host it knows, the older script answers as the newer one does; on every
      other host (codeberg.org, bitbucket.org, git.sr.ht, launchpad.net included) and
      on unparseable URLs it answers false. */
  lemma AgreesWithCurrent(u: Option<Url>)
    ensures u.Some? && u.value.hostname in LegacyHosts ==> IsRepoUrl(u) == RepoUrl.IsRepoUrl(u)
    ensures u.None? || u.value.hostname !in LegacyHosts ==> !IsRepoUrl(u)
  {
  }

  /** So the older classification only ever accepts what the newer one accepts. */
  lemma ImpliesCurrent(u: Option<Url>)
    ensures IsRepoUrl(u) ==> RepoUrl.IsRepoUrl(u)
  {
    AgreesWithCurrent(u);
  }

  /** A Codeberg repository is a repository URL only for the newer script. */
  lemma CodebergOnlyCurrent()
    ensures !IsRepoUrl(Some(Url("codeberg.org", "/octocat/Hello-World", "", "")))
    ensures RepoUrl.IsRepoUrl(Some(Url("codeberg.org", "/octocat/Hello-World", "", "")))
  {
    RepoUrl.OctocatSegments();
    RepoUrl.OctocatNotReserved();
    RepoUrl.ForgeRule(Url("codeberg.org", "/octocat/Hello-World", "", ""));
  }
}
