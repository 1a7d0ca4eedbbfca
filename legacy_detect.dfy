/** The older copy of GitHub repository-page detection, which has no private-repository
    check. */
module LegacyDetect {
  import opened Js
  import opened UrlPath
  import Detect

  /** `looksLikeGithubRepoUrl(url)` of the older file. */
  predicate LooksLikeGithubRepoUrl(u: Option<Url>) {
    match u
    case None => false
    case Some(url) =>
      if url.hostname != "github.com" then false
      else |Segments(url.pathname)| >= 2
  }

  /** `isGithubRepoPageNow()` of the older file. */
  predicate IsGithubRepoPageNow(p: Detect.Page) {
    if p.repoMeta then true
    else if p.appHeaderLabel then true
    else if p.underlineNav then true
    else false
  }

  /** Off github.com and for unparseable URLs: false; on github.com: at least two
      non-empty path segments. */
  lemma LooksLikeGithubRepoUrlRule(u: Option<Url>)
    ensures LooksLikeGithubRepoUrl(u) <==>
              u.Some? && u.value.hostname == "github.com" && |Segments(u.value.pathname)| >= 2
  {
  }

  /** The two generations classify every URL and every page alike. */
  lemma AgreesWithCurrent(u: Option<Url>, p: Detect.Page)
    ensures LooksLikeGithubRepoUrl(u) == Detect.LooksLikeGithubRepoUrl(u)
    ensures IsGithubRepoPageNow(p) == Detect.IsGithubRepoPageNow(p)
  {
  }

  /** The same three-indicator disjunction. */
  lemma PageNowIff(p: Detect.Page)
    ensures IsGithubRepoPageNow(p) <==> p.repoMeta || p.appHeaderLabel || p.underlineNav
  {
  }
}
