/** The monolithic content script of the first generation: configuration loading, the
    activity decision behind `isRepoActive`, and the link-marking loop `markRepoLinks`. */
module LegacyMain {
  import opened Js
  import opened UrlPath
  import opened Dom
  import LegacyRepoUrl

  // ---------------------------------------------------------------------------------
  // Configuration (`loadConfig`)

  /** A configuration value: a JSON primitive, or an object with its own properties. */
  datatype Setting = Plain(v: JsValue) | Record(fields: map<string, JsValue>)

  /** A configuration object: its own properties. */
  type Config = map<string, Setting>

  /** `defaultConfig`. */
  const DefaultConfig: Config := map[
    "max_repo_update_time" := Plain(Num(365)),
    "max_issues_update_time" := Plain(Num(30)),
    "max_count_unmerged_Prs" := Plain(Num(5)),
    "emoji_active" := Plain(Str("✅")),
    "emoji_inactive" := Plain(Str("❌"))]

  /** What `localStorage.getItem(CONFIG_KEY)` does: it throws, or it returns the stored
      text (`None`: nothing stored, `null`). */
  datatype Storage = Unreadable | Item(text: Option<string>)

  /** The settings a stored value contributes: the own properties of `JSON.parse(text)`,
      where `parse` answers `None` when the parse throws. Nothing when the storage cannot
      be read, holds nothing, holds "" or holds text that does not parse. */
  function StoredSettings(s: Storage, parse: string -> Option<Config>): Config {
    match s
    case Unreadable => map[]
    case Item(text) =>
      if text.None? || text.value == "" || parse(text.value).None? then map[]
      else parse(text.value).value
  }

  /** `loadConfig()`: the stored settings spread over the defaults. Every default key is
      present; a stored key overrides its default; a default key the stored value lacks
      keeps its default; no other key appears. The three failure paths (the storage
      throws, nothing usable is stored, the text does not parse) give the defaults. */
  function LoadConfig(s: Storage, parse: string -> Option<Config>): (r: Config)
    ensures forall k :: k in r <==> k in DefaultConfig || k in StoredSettings(s, parse)
    ensures forall k :: k in StoredSettings(s, parse) ==> r[k] == StoredSettings(s, parse)[k]
    ensures forall k :: k in DefaultConfig && k !in StoredSettings(s, parse) ==> r[k] == DefaultConfig[k]
    ensures StoredSettings(s, parse) == map[] ==> r == DefaultConfig
  {
    match s
    case Unreadable => DefaultConfig
    case Item(text) =>
      if text.None? || text.value == "" then DefaultConfig
      else
        match parse(text.value)
        case None => DefaultConfig
        case Some(stored) => DefaultConfig + stored
  }

  /** Nothing stored, an empty string stored, an unreadable storage or a parse error:
      the defaults, whatever the parser would make of other text. */
  lemma LoadConfigFallbacks(parse: string -> Option<Config>, t: string)
    ensures LoadConfig(Unreadable, parse) == DefaultConfig
    ensures LoadConfig(Item(None), parse) == DefaultConfig
    ensures LoadConfig(Item(Some("")), parse) == DefaultConfig
    ensures parse(t).None? ==> LoadConfig(Item(Some(t)), parse) == DefaultConfig
  {
  }

  // ---------------------------------------------------------------------------------
  // Dates and the cutoff

  /** A `Date`: a time value in milliseconds, or an invalid date. */
  datatype JsDate = Invalid | At(ms: int)

  /** The last-update value: a date, or the `null` the PyPI fold starts from. */
  datatype Stamp = NoStamp | Stamped(d: JsDate)

  /** The number a relational comparison turns a stamp into: `null` is 0, an invalid
      date is NaN (`None`). */
  function TimeValue(s: Stamp): Option<int> {
    match s
    case NoStamp => Some(0)
    case Stamped(Invalid) => None
    case Stamped(At(t)) => Some(t)
  }

  /** `a >= b` on numbers that may be NaN: false whenever either side is NaN. */
  predicate AtOrAfter(a: Option<int>, b: Option<int>) {
    a.Some? && b.Some? && a.value >= b.value
  }

  /** The number `cutoff.getDate() - config.max_repo_update_time` subtracts: numbers,
      booleans and `null` convert, and so does a string that is empty or only white
      space (to 0); anything else, or a missing key, is NaN. */
  function Days(cfg: Config): Option<int> {
    if "max_repo_update_time" !in cfg then None
    else
      match cfg["max_repo_update_time"]
      case Plain(Num(n)) => Some(n)
      case Plain(Bool(b)) => Some(if b then 1 else 0)
      case Plain(Null) => Some(0)
      case Plain(Str(t)) => if Trim(t) == [] then Some(0) else None
      case _ => None
  }

  const MsPerDay: int := 86400000

  /** The largest magnitude a `Date`'s time value may have: 100,000,000 days. */
  const MaxTimeValue: int := 8640000000000000

  /** TimeClip accepts the time value: it lies within 100,000,000 days of the epoch. */
  predicate InTimeRange(t: int) {
    -MaxTimeValue <= t <= MaxTimeValue
  }

  /** The cutoff: `now` moved back by the configured number of days. `setDate` ends in
      TimeClip, so the cutoff is an invalid date when that number is NaN and when the
      moved time value leaves the range a `Date` can hold. */
  function Cutoff(cfg: Config, now: int): (c: JsDate)
    ensures c.At? <==> Days(cfg).Some? && InTimeRange(now - Days(cfg).value * MsPerDay)
    ensures c.At? ==> c.ms == now - Days(cfg).value * MsPerDay && InTimeRange(c.ms)
  {
    match Days(cfg)
    case None => Invalid
    case Some(d) =>
      var t := now - d * MsPerDay;
      if InTimeRange(t) then At(t) else Invalid
  }

  // ---------------------------------------------------------------------------------
  // The PyPI fold

  /** `uploaded > latest`; false when either date is invalid. */
  predicate Later(a: JsDate, b: JsDate) {
    a.At? && b.At? && a.ms > b.ms
  }

  /** The `reduce` over the upload times of every file of every release, from `null`:
      an upload replaces the running value when there is none yet or when it is later. */
  function LatestUpload(uploads: seq<JsDate>): Stamp
    decreases |uploads|
  {
    if uploads == [] then NoStamp
    else
      var latest := LatestUpload(uploads[..|uploads| - 1]);
      var uploaded := uploads[|uploads| - 1];
      if latest.NoStamp? || Later(uploaded, latest.d) then Stamped(uploaded) else latest
  }

  /** When the first upload time is valid, the fold finds the latest valid upload time:
      one of the uploads, and no valid upload is later. Invalid ones after it are
      skipped. */
  lemma {:induction false} LatestUploadIsMax(uploads: seq<JsDate>)
    requires uploads != [] && uploads[0].At?
    ensures LatestUpload(uploads).Stamped? && LatestUpload(uploads).d.At?
    ensures exists i :: 0 <= i < |uploads| && uploads[i] == LatestUpload(uploads).d
    ensures forall i :: 0 <= i < |uploads| && uploads[i].At? ==>
              uploads[i].ms <= LatestUpload(uploads).d.ms
    decreases |uploads|
  {
    var n := |uploads| - 1;
    if n > 0 {
      var prefix := uploads[..n];
      LatestUploadIsMax(prefix);
      var m := LatestUpload(prefix).d;
      var i :| 0 <= i < n && prefix[i] == m;
      assert uploads[i] == m;
      forall j | 0 <= j < n && uploads[j].At?
        ensures uploads[j].ms <= m.ms
      {
        assert prefix[j] == uploads[j];
      }
    }
  }

  /** An invalid first upload time is never replaced: every later comparison with it is
      false, so the result is the invalid date. */
  lemma {:induction false} FirstInvalidUploadSticks(uploads: seq<JsDate>)
    requires uploads != [] && uploads[0] == Invalid
    ensures LatestUpload(uploads) == Stamped(Invalid)
    decreases |uploads|
  {
    var n := |uploads| - 1;
    if n > 0 {
      assert uploads[..n][0] == Invalid;
      FirstInvalidUploadSticks(uploads[..n]);
    }
  }

  // ---------------------------------------------------------------------------------
  // `isRepoActive`

  /** The API request of each supported host, before it is formatted into a URL. */
  datatype ApiCall =
    | GitHubRepo(owner: string, repo: string)
    | GitLabProject(path: string)
    | NpmPackage(name: string)
    | DockerRepository(namespace: string, image: string)
    | PyPIProject(name: string)
    | Crate(name: string)

  /** `parts[i]` as a template string prints it: "undefined" past the end. */
  function Part(parts: seq<string>, i: nat): string {
    if i < |parts| then parts[i] else "undefined"
  }

  /** `parts.slice(0, 2).join("/")`. */
  function FirstTwo(parts: seq<string>): string {
    if |parts| == 0 then "" else if |parts| == 1 then parts[0] else parts[0] + "/" + parts[1]
  }

  /** The host switch of `isRepoActive`: the request for a supported host, `None` for
      every other host (`default: return false`, before any request). */
  function CallFor(host: string, parts: seq<string>): Option<ApiCall> {
    if host == "github.com" then Some(GitHubRepo(Part(parts, 0), Part(parts, 1)))
    else if host == "gitlab.com" then Some(GitLabProject(FirstTwo(parts)))
    else if host == "npmjs.com" || host == "www.npmjs.com" then Some(NpmPackage(Part(parts, 1)))
    else if host == "hub.docker.com" then Some(DockerRepository(Part(parts, 1), Part(parts, 2)))
    else if host == "pypi.org" then Some(PyPIProject(Part(parts, 1)))
    else if host == "crates.io" then Some(Crate(Part(parts, 1)))
    else None
  }

  /** The hosts `isRepoActive` can ask about. */
  const ActivityHosts: set<string> := {
    "github.com", "gitlab.com", "npmjs.com", "www.npmjs.com", "hub.docker.com", "pypi.org", "crates.io"}

  /** How a request ends: it throws (a network error, or a body that cannot be read),
      or it answers with its `ok` flag, the date the host reports (`pushed_at`,
      `last_activity_at`, `time.modified || time.created`, `last_updated`,
      `crate.updated_at`) and, for PyPI, the upload time of every file of every release. */
  datatype Reply = Failed | Answer(ok: bool, date: JsDate, uploads: seq<JsDate>)

  /** `lastUpdate` once the answer is in. */
  function LastUpdate(call: ApiCall, date: JsDate, uploads: seq<JsDate>): Stamp {
    if call.PyPIProject? then LatestUpload(uploads) else Stamped(date)
  }

  /** `isRepoActive(url)`: `fetch` answers the request; `now` is `new Date()`. */
  function IsRepoActive(u: Option<Url>, cfg: Config, now: int, fetch: ApiCall -> Reply): (active: bool)
    ensures active ==> u.Some? && u.value.hostname in ActivityHosts
    ensures active ==> Days(cfg).Some?
  {
    match u
    case None => false
    case Some(url) =>
      match CallFor(url.hostname, Segments(url.pathname))
      case None => false
      case Some(call) =>
        match fetch(call)
        case Failed => false
        case Answer(ok, date, uploads) =>
          if !ok then false
          else AtOrAfter(TimeValue(LastUpdate(call, date, uploads)), TimeValue(Stamped(Cutoff(cfg, now))))
  }

  /** An unparseable URL or an unsupported host is inactive, and no request is built
      for it: the answer is the same for every `fetch`. */
  lemma UnsupportedHostInactive(u: Option<Url>, cfg: Config, now: int, fetch: ApiCall -> Reply)
    requires u.None? || u.value.hostname !in ActivityHosts
    ensures u.Some? ==> CallFor(u.value.hostname, Segments(u.value.pathname)) == None
    ensures !IsRepoActive(u, cfg, now, fetch)
  {
  }

  /** A request that throws or answers with `ok` false gives false. */
  lemma FailedRequestInactive(url: Url, cfg: Config, now: int, fetch: ApiCall -> Reply)
    requires CallFor(url.hostname, Segments(url.pathname)).Some?
    requires var r := fetch(CallFor(url.hostname, Segments(url.pathname)).value); r.Failed? || !r.ok
    ensures !IsRepoActive(Some(url), cfg, now, fetch)
  {
  }

  /** On the hosts that report one date, a repository is active iff that date is valid
      and at or after `now` less the configured number of days, and that cutoff is a
      valid date. */
  lemma CutoffRule(url: Url, cfg: Config, now: int, fetch: ApiCall -> Reply)
    requires url.hostname in ActivityHosts && url.hostname != "pypi.org"
    requires var r := fetch(CallFor(url.hostname, Segments(url.pathname)).value); r.Answer? && r.ok
    ensures var r := fetch(CallFor(url.hostname, Segments(url.pathname)).value);
            IsRepoActive(Some(url), cfg, now, fetch) <==>
              r.date.At? && Days(cfg).Some? && InTimeRange(now - Days(cfg).value * MsPerDay)
              && r.date.ms >= now - Days(cfg).value * MsPerDay
  {
    var call := CallFor(url.hostname, Segments(url.pathname));
    assert call.Some? && !call.value.PyPIProject?;
  }

  /** On PyPI, when the first upload time is valid, a project is active iff some valid
      upload time is at or after the cutoff and the cutoff is a valid date. */
  lemma PyPIRule(url: Url, cfg: Config, now: int, fetch: ApiCall -> Reply)
    requires url.hostname == "pypi.org"
    requires var r := fetch(CallFor(url.hostname, Segments(url.pathname)).value);
             r.Answer? && r.ok && r.uploads != [] && r.uploads[0].At?
    ensures var r := fetch(CallFor(url.hostname, Segments(url.pathname)).value);
            IsRepoActive(Some(url), cfg, now, fetch) <==>
              Days(cfg).Some? && InTimeRange(now - Days(cfg).value * MsPerDay) &&
              exists i :: 0 <= i < |r.uploads| && r.uploads[i].At? &&
                          r.uploads[i].ms >= now - Days(cfg).value * MsPerDay
  {
    var r := fetch(CallFor(url.hostname, Segments(url.pathname)).value);
    LatestUploadIsMax(r.uploads);
  }

  /** On PyPI with no files at all the fold stays `null`, which compares as time 0. */
  lemma PyPINoFiles(url: Url, cfg: Config, now: int, fetch: ApiCall -> Reply)
    requires url.hostname == "pypi.org"
    requires var r := fetch(CallFor(url.hostname, Segments(url.pathname)).value);
             r.Answer? && r.ok && r.uploads == []
    ensures IsRepoActive(Some(url), cfg, now, fetch) <==>
              Days(cfg).Some? && InTimeRange(now - Days(cfg).value * MsPerDay)
              && 0 >= now - Days(cfg).value * MsPerDay
  {
  }

  /** packagist.org has no case in the host switch: a Packagist package the URL rule
      accepts is inactive whatever the registry would say. */
  lemma PackagistAlwaysInactive(url: Url, cfg: Config, now: int, fetch: ApiCall -> Reply)
    requires url.hostname == "packagist.org"
    ensures LegacyRepoUrl.IsRepoUrl(Some(url)) <==>
              |Segments(url.pathname)| >= 3 && Segments(url.pathname)[0] == "packages"
    ensures !IsRepoActive(Some(url), cfg, now, fetch)
  {
  }

  /** A day count so large that the cutoff leaves the range of a `Date` makes the
      cutoff invalid, and with it every repository inactive. */
  lemma FarCutoffInactive(u: Option<Url>, cfg: Config, now: int, fetch: ApiCall -> Reply)
    requires Days(cfg).Some? && !InTimeRange(now - Days(cfg).value * MsPerDay)
    ensures Cutoff(cfg, now) == Invalid
    ensures !IsRepoActive(u, cfg, now, fetch)
  {
  }

  /** A configured number of days that is NaN makes every repository inactive. */
  lemma NaNDaysInactive(u: Option<Url>, cfg: Config, now: int, fetch: ApiCall -> Reply)
    requires Days(cfg).None?
    ensures !IsRepoActive(u, cfg, now, fetch)
  {
  }

  // ---------------------------------------------------------------------------------
  // `markRepoLinks`

  /** A link the loop still has to mark: a repository URL without the flag. */
  predicate Pending(l: Link)
    reads l
  {
    PendingWith(l.url, l.repoChecked)
  }

  /** `isRepoUrl(link.href) && !link.dataset.repoChecked` for a given flag. */
  predicate PendingWith(url: Option<Url>, flag: Option<string>) {
    LegacyRepoUrl.IsRepoUrl(url) && !(flag.Some? && flag.value != "")
  }

  /** `${config[key]}`: "undefined" for a missing key, "[object Object]" for an object. */
  function SettingText(cfg: Config, key: string): string {
    if key !in cfg then "undefined"
    else
      match cfg[key]
      case Plain(v) => ToText(v)
      case Record(_) => "[object Object]"
  }

  /** The span `markRepoLinks` prepends. */
  function Mark(cfg: Config, active: bool): (m: Node)
    ensures m.Span? && m.classes == {} && m.title == ""
    ensures m.color == "green" <==> active
    ensures m.color == "red" <==> !active
    ensures |m.text| >= 1 && m.text[|m.text| - 1] == ' '
  {
    var emoji := SettingText(cfg, if active then "emoji_active" else "emoji_inactive");
    Span({}, emoji + " ", if active then "green" else "red", "")
  }

  /** With the default configuration the marks read "✅ " and "❌ ". */
  lemma DefaultMarks()
    ensures Mark(DefaultConfig, true).text == "✅ "
    ensures Mark(DefaultConfig, false).text == "❌ "
  {
    assert DefaultConfig["emoji_active"] == Plain(Str("✅"));
    assert DefaultConfig["emoji_inactive"] == Plain(Str("❌"));
  }

  /** `markRepoLinks()` over the document's anchors, in document order. Each lookup is
      awaited before the next anchor is visited, so each reads its own clock and gets
      its own answers; an anchor is looked up at most once per pass, so the lookup made
      for anchor `l` is the one that sees `clock(l)` and `fetch(l)`. Every pending link
      is flagged and gets exactly one new first child: the mark for its activity. Every
      other link is left as it was. Afterwards no link is pending, so a second pass
      changes nothing. */
  method MarkRepoLinks(links: seq<Link>, cfg: Config, clock: Link -> int, fetch: Link -> ApiCall -> Reply)
    modifies set l | l in links
    ensures forall l :: l in links ==> !Pending(l)
    ensures forall l :: l in links ==>
              MarkedAt(l.url, cfg, clock(l), fetch(l), old(l.repoChecked), old(l.children), l.repoChecked, l.children)
  {
    var i := 0;
    while i < |links|
      invariant 0 <= i <= |links|
      invariant forall l :: l in links[..i] ==> !Pending(l)
      invariant forall l :: l in links[..i] ==>
                  MarkedAt(l.url, cfg, clock(l), fetch(l), old(l.repoChecked), old(l.children), l.repoChecked, l.children)
      invariant forall l :: l in links && l !in links[..i] ==>
                  l.repoChecked == old(l.repoChecked) && l.children == old(l.children)
    {
      var link := links[i];
      assert links[..i + 1] == links[..i] + [link];
      if Pending(link) {
        MarkLink(link, cfg, clock(link), fetch(link));
      }
      i := i + 1;
    }
    assert links[..i] == links;
  }

  /** The loop's work on one pending link: the flag, then the mark in front. */
  method MarkLink(link: Link, cfg: Config, now: int, fetch: ApiCall -> Reply)
    requires Pending(link)
    modifies link
    ensures !Pending(link)
    ensures MarkedAt(link.url, cfg, now, fetch, old(link.repoChecked), old(link.children), link.repoChecked, link.children)
  {
    link.repoChecked := Some("true");
    var active := IsRepoActive(link.url, cfg, now, fetch);
    link.children := [Mark(cfg, active)] + link.children;
  }

  /** What the pass leaves at one anchor, given its flag and children before and after:
      a pending link is flagged and gets the mark for the activity seen with `now` and
      `fetch` in front of its children; any other is unchanged. */
  predicate MarkedAt(url: Option<Url>, cfg: Config, now: int, fetch: ApiCall -> Reply,
                     flag0: Option<string>, children0: seq<Node>, flag: Option<string>, children: seq<Node>)
  {
    if PendingWith(url, flag0) then
      flag == Some("true") && children == [Mark(cfg, IsRepoActive(url, cfg, now, fetch))] + children0
    else
      flag == flag0 && children == children0
  }
}
