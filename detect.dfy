/** GitHub repository-page detection of the content script, over the page facts the
    DOM queries would report. */
module Detect {
  import opened Js
  import opened UrlPath
  import RepoUrl

  /** What the detection queries find on the current page. */
  datatype Page = Page(
    repoMeta: bool,          // meta[name="octolytics-dimension-repository_nwo"]
    appHeaderLabel: bool,    // .AppHeader-context-item-label
    underlineNav: bool,      // .UnderlineNav
    labelTexts: seq<string>, // textContent of each span.Label / span.Label--secondary, in document order
    privateLock: bool)       // svg[aria-label="Private"]

  /** `looksLikeGithubRepoUrl(url)`; `None` is a URL the `URL` constructor rejects. */
  predicate LooksLikeGithubRepoUrl(u: Option<Url>) {
    match u
    case None => false
    case Some(url) =>
      if url.hostname != "github.com" then false
      else |Segments(url.pathname)| >= 2
  }

  /** `isGithubRepoPageNow()`: the three checks with early returns. */
  predicate IsGithubRepoPageNow(p: Page) {
    if p.repoMeta then true
    else if p.appHeaderLabel then true
    else if p.underlineNav then true
    else false
  }

  /** How a label's text is compared: `(text || '').trim().toLowerCase()`. */
  function NormalizedLabel(text: string): string {
    ToLower(Trim(text))
  }

  /** The label loop of `isGithubRepoPrivate`: returns as soon as one label reads "private". */
  predicate AnyPrivateLabel(labels: seq<string>) {
    if labels == [] then false
    else if NormalizedLabel(labels[0]) == "private" then true
    else AnyPrivateLabel(labels[1..])
  }

  /** `isGithubRepoPrivate()`: a "private" label, else the lock icon. */
  predicate IsGithubRepoPrivate(p: Page) {
    if AnyPrivateLabel(p.labelTexts) then true
    else if p.privateLock then true
    else false
  }

  /** Off github.com, and for unparseable URLs, nothing looks like a repository; on
      github.com a URL does iff it has at least two non-empty path segments. */
  lemma LooksLikeGithubRepoUrlRule(u: Option<Url>)
    ensures LooksLikeGithubRepoUrl(u) <==>
              u.Some? && u.value.hostname == "github.com" && |Segments(u.value.pathname)| >= 2
  {
  }

  /** A github.com URL the repository-URL rule accepts also looks like a repository;
      the converse holds whenever the first segment is not reserved. */
  lemma LooksLikeVersusRepoUrl(u: Option<Url>)
    requires u.Some? && u.value.hostname == "github.com"
    ensures RepoUrl.IsRepoUrl(u) ==> LooksLikeGithubRepoUrl(u)
    ensures LooksLikeGithubRepoUrl(u) && !RepoUrl.IsReserved(Segments(u.value.pathname)[0]) ==>
              RepoUrl.IsRepoUrl(u)
  {
  }

  /** The cases of the unit tests: an owner and a repository, an owner alone, another host. */
  lemma AcceptsOwnerAndRepo()
    ensures LooksLikeGithubRepoUrl(Some(Url("github.com", "/octocat/Hello-World", "", "")))
  {
    RepoUrl.OctocatSegments();
  }

  lemma RejectsOwnerOnly()
    ensures !LooksLikeGithubRepoUrl(Some(Url("github.com", "/octocat", "", "")))
  {
    assert PathOf(["octocat"]) == "/octocat";
    SegmentsOfPath(["octocat"]);
  }

  lemma RejectsOtherHost()
    ensures !LooksLikeGithubRepoUrl(Some(Url("gitlab.com", "/group/project", "", "")))
  {
  }

  /** A page is a repository page iff one of the three indicators is present. */
  lemma PageNowIff(p: Page)
    ensures IsGithubRepoPageNow(p) <==> p.repoMeta || p.appHeaderLabel || p.underlineNav
  {
  }

  /** The label search finds a label exactly when some label normalizes to "private". */
  lemma {:induction false} AnyPrivateLabelIff(labels: seq<string>)
    ensures AnyPrivateLabel(labels) <==>
              exists i :: 0 <= i < |labels| && NormalizedLabel(labels[i]) == "private"
  {
    if labels != [] {
      AnyPrivateLabelIff(labels[1..]);
      if exists i :: 0 <= i < |labels| - 1 && NormalizedLabel(labels[1..][i]) == "private" {
        var i :| 0 <= i < |labels| - 1 && NormalizedLabel(labels[1..][i]) == "private";
        assert labels[i + 1] == labels[1..][i];
      }
      if exists i :: 0 <= i < |labels| && NormalizedLabel(labels[i]) == "private" {
        var i :| 0 <= i < |labels| && NormalizedLabel(labels[i]) == "private";
        if i > 0 {
          assert labels[1..][i - 1] == labels[i];
        }
      }
    }
  }

  /** Private iff some label reads "private" after trimming and lower-casing, or
      the lock icon is present; with neither, the page is not private. */
  lemma PrivateIff(p: Page)
    ensures IsGithubRepoPrivate(p) <==>
              (exists i :: 0 <= i < |p.labelTexts| && NormalizedLabel(p.labelTexts[i]) == "private")
              || p.privateLock
  {
    AnyPrivateLabelIff(p.labelTexts);
  }

  /** A "Private" label is found, in any case and with surrounding white space. */
  lemma PrivateLabelFound()
    ensures IsGithubRepoPrivate(Page(false, false, false, ["Private"], false))
  {
    NormalizedPrivate();
  }

  lemma PaddedPrivateLabelFound()
    ensures IsGithubRepoPrivate(Page(false, false, false, ["  PRIVATE\n"], false))
  {
    NormalizedPaddedPrivate();
  }

  /** A "Public" label alone is not private. */
  lemma PublicLabelNotPrivate()
    ensures !IsGithubRepoPrivate(Page(false, false, false, ["Public"], false))
  {
    NormalizedPublic();
  }

  /** The lock icon alone suffices. */
  lemma LockIconFound()
    ensures IsGithubRepoPrivate(Page(false, false, false, [], true))
  {
  }

  lemma NormalizedPrivate()
    ensures NormalizedLabel("Private") == "private"
  {
    assert "Private" == "" + "Private" + "";
    TrimPadded("", "Private", "");
    LowerTitlePrivate();
  }

  lemma LowerTitlePrivate()
    ensures ToLower("Private") == "private"
  {
    var s := "Private";
    var r := ToLower(s);
    assert LowerChar('P') == 'p';
    assert forall i :: 1 <= i < 7 ==> LowerChar(s[i]) == s[i];
    assert r == "private";
  }

  lemma NormalizedPaddedPrivate()
    ensures NormalizedLabel("  PRIVATE\n") == "private"
  {
    var inner := "PRIVATE";
    assert "  PRIVATE\n" == "  " + inner + "\n";
    TrimPadded("  ", inner, "\n");
    LowerPrivate();
  }

  lemma LowerPrivate()
    ensures ToLower("PRIVATE") == "private"
  {
    var inner := "PRIVATE";
    var r := ToLower(inner);
    assert forall i :: 0 <= i < 7 ==> LowerChar(inner[i]) == (inner[i] as int + 32) as char;
    assert r == "private";
  }

  lemma NormalizedPublic()
    ensures NormalizedLabel("Public") != "private"
  {
    TrimStartNoop("Public");
    TrimEndNoop("Public");
  }
}
