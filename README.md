# GitPulse link annotation, modelled in Dafny

GitPulse is a browser extension. It finds links to source repositories and package pages on the page being viewed. It asks whether each repository is still active and puts a small emoji mark in front of each link. This project models the parts of the extension that decide things:

- which URLs count as repository URLs: the current rule in `content/main.helpers.js` and the older one in `main.js`;
- how the content script groups a page's links by repository key and looks each key up once per session;
- how it removes earlier marks and prepends a new one;
- how it detects a GitHub repository page and a private repository;
- the older one-link-at-a-time marking code, with its configuration merge, its date cutoff and its PyPI upload fold;
- the emoji list utilities of the options page: de-duplication by character, and the limited search.

The browser is reduced to plain values:

- A URL becomes `Option<Url>`, where `None` is a URL the `URL` constructor rejects.
- A page becomes the facts its DOM queries would report.
- An anchor element becomes a `Link` object. Its address and owning document never change. Its `data-repo-checked` flag and its children are fields the annotators update.
- Every call that leaves the page is a function parameter: a background message, a `fetch`, `localStorage`, `JSON.parse` and the clock.
- The older marking loops await each lookup before they visit the next anchor, and they look each anchor up at most once per pass. So each anchor's lookup gets its own clock reading and its own answers: those parameters take the anchor as their first argument.

Modules follow the source files:

- `Js`: the JavaScript built-ins the code relies on.
- `UrlPath`: `split("/").filter(Boolean)`.
- `RepoUrl`, `Helpers`, `Links` and `Detect`: the content script.
- `LegacyRepoUrl`, `LegacyMain`, `LegacyLinks` and `LegacyDetect`: the first generation of scripts in `src/`.
- `Emoji`: `src/emoji.js`.
- `Dom`: the link objects.
- `Seqs`: subsequences and filtering.

Some consequences of the code that the model makes explicit:

- `dedupeLinks` keys on `hostname + pathname`, so a trailing slash gives a different key (`Links.TrailingSlashSplitsKey`), although the repository-URL rule ignores it (`RepoUrl.SlashAndQueryInsensitive`).
- The older `isRepoUrl` accepts Packagist packages. The older `isRepoActive` has no Packagist case, so such links are always marked inactive (`LegacyMain.PackagistAlwaysInactive`).
- The older `markLinksInDocument` reads `config.emoji_active.active`. The older default configuration stores plain strings, so with the defaults the active and inactive marks are empty (`LegacyLinks.DefaultEmojisGiveEmptyText`).
- `src/main.links.js` calls the global `isRepoUrl` and `isRepoActive` but defines neither. The model uses the content script's versions: the current host rule and the background-message lookup.

## Model

| member | source | states |
|---|---|---|
| UrlPath.Segments | src/content/main.helpers.js:39 | definition: `pathname.split("/").filter(Boolean)` |
| UrlPath.Split | src/content/main.helpers.js:39 | `split("/")` always yields at least one piece |
| UrlPath.SplitPieces | src/content/main.helpers.js:39 | no piece of the split contains a slash |
| UrlPath.NonEmptyPieces | src/content/main.helpers.js:39 | `filter(Boolean)` keeps only non-empty pieces, each taken from its input |
| UrlPath.NonEmpty | src/content/main.helpers.js:39 | filtering never lengthens the list |
| UrlPath.SegmentsArePieces | src/content/main.helpers.js:39 | every path segment is non-empty and slash-free |
| UrlPath.JoinSplit | src/content/main.helpers.js:39 | joining the split pieces with "/" gives the path back (split loses nothing) |
| UrlPath.JoinCons | src/content/main.helpers.js:39 | joining a longer list adds one piece and one slash |
| UrlPath.SplitAtSlash | src/content/main.helpers.js:39 | splitting at a slash splits each side separately |
| UrlPath.NonEmptyConcat | src/content/main.helpers.js:39 | the filter distributes over concatenation |
| UrlPath.SegmentsAtSlash | src/content/main.helpers.js:39 | the segments of `a/b` are those of `a` followed by those of `b` |
| UrlPath.TrailingSlash | src/content/main.helpers.js:39 | a trailing slash does not change the segments |
| UrlPath.DoubledSlash | src/content/main.helpers.js:39 | a doubled slash does not change the segments |
| UrlPath.SegmentsOfWord | src/content/main.helpers.js:39 | a non-empty slash-free word is one segment |
| UrlPath.SplitOfWord | src/content/main.helpers.js:39 | a slash-free word splits into itself |
| UrlPath.LeadingSlash | src/content/main.helpers.js:39 | a leading slash does not change the segments |
| UrlPath.SegmentsCons | src/content/main.helpers.js:39 | a slash and a word before a path add that word as first segment |
| UrlPath.SegmentsOfPath | src/content/main.helpers.js:39 | the path built from non-empty slash-free words has exactly those words as segments |
| RepoUrl.IsRepoUrl | src/content/main.helpers.js:36-98 | definition: a parseable URL whose host and path segments the host switch accepts; a URL the constructor rejects gives false |
| RepoUrl.HostAccepts | src/content/main.helpers.js:55-94 | definition: the host switch, one case per supported host and false for every other |
| RepoUrl.InListIff | src/content/main.helpers.js:41-53 | the list search finds a word iff it is in the list |
| RepoUrl.ForgeRule | src/content/main.helpers.js:55-66 | on github.com, gitlab.com, codeberg.org and bitbucket.org: accepted iff at least two segments and the first is not reserved |
| RepoUrl.SourcehutAndLaunchpadRule | src/content/main.helpers.js:68-74 | git.sr.ht: two segments, or one starting with "~"; launchpad.net: one segment that is not reserved |
| RepoUrl.RegistryRule | src/content/main.helpers.js:76-90 | npm, Docker Hub, PyPI, crates.io and Packagist: the fixed first segment and the minimum segment count |
| RepoUrl.OtherHostsRejected | src/content/main.helpers.js:92-97 | an unparseable URL or a host outside the switch is never a repository URL |
| RepoUrl.SlashAndQueryInsensitive | src/content/main.helpers.js:38-39 | doubled or trailing slashes, the query and the fragment never change the verdict |
| RepoUrl.AcceptsOctocat | src/test/main.helpers.control.test.js:4-6 | `github.com/octocat/Hello-World` is accepted |
| RepoUrl.OctocatSegments | src/test/main.helpers.control.test.js:5 | its path has the two segments `octocat` and `Hello-World` |
| RepoUrl.OctocatNotReserved | src/content/main.helpers.js:41-53 | `octocat` is not a reserved word |
| RepoUrl.RejectsExplore | src/test/main.helpers.control.test.js:8-10 | `github.com/explore` is rejected |
| RepoUrl.AcceptsNpmPackage | src/test/isRepoUrl.test.js:12-14 | `www.npmjs.com/package/express` is accepted |
| RepoUrl.RejectsUnknownHost | src/test/main.helpers.control.test.js:16-18 | `example.com/foo/bar` is rejected |
| Helpers.ActiveConfigMetrics | src/content/main.helpers.js:27-34 | every key of the result is a configuration key |
| Helpers.ActiveConfigMetricsSound | src/content/main.helpers.js:29 | every key of the result belongs to a field that is active and has a value |
| Helpers.ActiveConfigMetricsComplete | src/content/main.helpers.js:29-32 | every such field's key is in the result |
| Helpers.ActiveConfigMetricsExact | src/content/main.helpers.js:27-34 | on an object, a key is present iff its field is selected, and it maps to that field's value |
| Helpers.MetricsStep | src/content/main.helpers.js:30-33 | one reduce step adds the entry's value iff the entry is selected, else keeps the accumulator |
| Helpers.ControlTestMetrics | src/test/main.helpers.control.test.js:32-45 | the unit test's configuration yields exactly its three active fields; a field without a value is left out |
| Helpers.IsRepoActive | src/content/main.helpers.js:5-12 | no reply or `ok === false` gives false; otherwise `result.status`, undefined when there is no result |
| Links.Kept | src/content/main.links.js:24-26 | definition: the href is not empty and is a repository URL |
| Links.KeyOf | src/content/main.links.js:28-29 | definition: the key `hostname + pathname` |
| Links.Grouping | src/content/main.links.js:21-37 | definition: the keys of the kept links in first-appearance order, each with its kept links in page order |
| Links.DedupeLinks | src/content/main.links.js:21-37 | the loop builds exactly the grouping of the links, keys in first-appearance order |
| Links.KeyOrderDistinct | src/content/main.links.js:30 | every key appears once in the order |
| Links.KeyOrderSound | src/content/main.links.js:24-29 | every key comes from a kept link that has it |
| Links.KeyOrderComplete | src/content/main.links.js:29-30 | every kept link's key is a key |
| Links.KeyOrderIff | src/content/main.links.js:23-31 | a key is present iff some kept link has it |
| Links.GroupMapKeys | src/content/main.links.js:30-31 | the groups have exactly the ordered keys, and no group is empty |
| Links.GroupMapMembers | src/content/main.links.js:25-31 | a link is in group `k` iff it is a kept link whose key is `k` |
| Links.GroupMapOrder | src/content/main.links.js:31 | each group keeps the links in page order |
| Links.ExactlyOneKey | src/content/main.links.js:29-31 | every kept link is under its own key and under no other |
| Links.DroppedLinks | src/content/main.links.js:25-26 | a link with an empty href or a non-repository URL is in no group |
| Links.QueryAndFragmentIgnored | src/content/main.links.js:29 | links that differ only in query or fragment share a key |
| Links.TrailingSlashSplitsKey | src/content/main.links.js:29 | a trailing slash gives a different key |
| Links.GroupingWellFormed | src/content/main.links.js:21-37 | what `dedupeLinks` returns is well formed |
| Links.AnnotateLink | src/content/main.links.js:66-118 | the flag becomes "true" and the children become the annotated children |
| Links.KnownEmojis | src/content/main.links.js:71-77 | definition: the truthy configured values of the four emoji fields and the four legacy texts |
| Links.EmojiOf | src/content/main.links.js:85-89 | definition: `getEmoji`: "" for a missing or disabled field, else `value || fallback` |
| Links.Remarked | src/content/main.links.js:78-118 | definition: prior marks removed, then the new mark prepended when the icon is truthy |
| Links.Annotated | src/content/main.links.js:66-118 | definition: the children `annotateLink` leaves, from the configuration and the status |
| Links.WithoutPriorMarksIff | src/content/main.links.js:78-83 | a child survives iff it is not a prior mark |
| Links.WithoutPriorMarksOrder | src/content/main.links.js:78-83 | survivors keep their order |
| Links.WithoutPriorMarksConcat | src/content/main.links.js:78 | removal works child by child |
| Links.WithoutPriorMarksNoop | src/content/main.links.js:78-83 | with no prior mark present, nothing is removed |
| Links.EmojiOfRule | src/content/main.links.js:85-89 | `getEmoji` is truthy iff the field is enabled: its value if truthy, else the fallback; disabled gives "" |
| Links.IconIff | src/content/main.links.js:96-102 | an icon exists iff the status is 'private', 'rate_limited', true or false and its field is enabled |
| Links.RemarkedStartsWithMark | src/content/main.links.js:102-118 | the first child is the new mark iff the icon is truthy |
| Links.RemarkedMarks | src/content/main.links.js:78-118 | afterwards only the first child may be a mark; every child that was not a prior mark stays |
| Links.RemarkedIdempotent | src/content/main.links.js:67-83 | annotating twice with the same icon equals annotating once |
| Links.PriorMarksGone | src/content/main.links.js:78-83 | removing prior marks twice removes nothing more |
| Links.NewMarkDropped | src/content/main.links.js:80 | a mark of this pass is a prior mark to the next pass |
| Links.AnnotatedShape | src/content/main.links.js:96-118 | a mark is added iff the status has an emoji whose field is enabled; it is the only mark left, it reads the icon and a space, and the other children survive in order |
| Links.AnnotatedIdempotent | src/content/main.links.js:67-68 | re-annotating with the same status changes nothing more |
| Links.InactiveEmojiDisabled | src/test/main.links.control.test.js:8-21 | a disabled inactive emoji and a `false` status add no span |
| Links.InactiveEmojiRendered | src/test/main.links.control.test.js:23-37 | with all emojis enabled a `false` status adds one span reading "❌" |
| Links.Resolve | src/content/main.links.js:52-58 | definition: the status a task records, `false` when the lookup throws |
| Links.Uncached | src/content/main.links.js:41-49 | only keys that are present and not cached get a task |
| Links.UncachedExact | src/content/main.links.js:41-49 | exactly the uncached keys get a task, each once |
| Links.AnnotateAll | src/content/main.links.js:45 | every element of the list is annotated with the status |
| Links.AnnotateKey | src/content/main.links.js:45 | the elements of one key are annotated, those of every other key are left alone |
| Links.AnnotateGroups | src/content/main.links.js:41-61 | every element of every group is annotated with its key's status |
| Links.Session.constructor | src/content/main.links.js:3 | the session cache starts empty |
| Links.Session.PendingKeys | src/content/main.links.js:41-49 | the task list is the uncached keys in key order |
| Links.Session.RunLookups | src/content/main.links.js:49-59 | each task asks about its first element's href and caches the result; nothing else in the cache changes |
| Links.Session.LookUpUncached | src/content/main.links.js:40-59 | exactly the uncached keys are asked about, once each in map order; old cache entries are kept and every key ends up cached, a new one with its lookup's status |
| Links.CacheAfterLookups | src/content/main.links.js:42-59 | after the tasks have run, the cache holds every key, old entries unchanged and new ones with the status of their lookup |
| Links.Session.ProcessUniqueUrls | src/content/main.links.js:39-64 | cached keys keep their status and are not asked about; the rest are asked once; every element gets its key's status |
| Links.SecondPassLooksUpNothing | src/content/main.links.js:42-47 | once every key is cached, no lookup task is created |
| Detect.LooksLikeGithubRepoUrl | src/content/main.detect.js:2-11 | definition: a parseable URL on github.com with at least two segments |
| Detect.IsGithubRepoPageNow | src/content/main.detect.js:13-24 | definition: the three early returns over the page's indicators |
| Detect.AnyPrivateLabel | src/content/main.detect.js:39-43 | definition: the label loop, returning at the first normalised "private" |
| Detect.IsGithubRepoPrivate | src/content/main.detect.js:36-49 | definition: a private label, else the lock icon |
| Detect.LooksLikeGithubRepoUrlRule | src/content/main.detect.js:2-11 | true iff parseable, on github.com and with at least two non-empty segments |
| Detect.LooksLikeVersusRepoUrl | src/content/main.detect.js:2-11 | on github.com, an accepted repository URL looks like a repository; the converse holds when the owner is not reserved |
| Detect.AcceptsOwnerAndRepo | src/unit-tests/main.detect.control.test.js:5-7 | owner and repository are detected |
| Detect.RejectsOwnerOnly | src/unit-tests/main.detect.control.test.js:9-11 | an owner alone is rejected |
| Detect.RejectsOtherHost | src/unit-tests/main.detect.control.test.js:13-15 | gitlab.com is rejected |
| Detect.PageNowIff | src/content/main.detect.js:13-24 | the three early returns, read as one disjunction: a repository page iff the meta tag, the AppHeader label or the UnderlineNav is present (a restatement of the definition that Dafny proves unaided) |
| Detect.AnyPrivateLabelIff | src/content/main.detect.js:39-43 | the label loop returns true iff some label's trimmed, lower-cased text is "private" |
| Detect.PrivateIff | src/content/main.detect.js:36-49 | private iff such a label exists or the lock icon exists |
| Detect.PrivateLabelFound | src/unit-tests/main.detect.control.test.js:45-48 | a "Private" label is found |
| Detect.PaddedPrivateLabelFound | src/content/main.detect.js:41-42 | a padded upper-case label is found too |
| Detect.PublicLabelNotPrivate | src/unit-tests/main.detect.control.test.js:56-59 | a "Public" label alone is not private |
| Detect.LockIconFound | src/unit-tests/main.detect.control.test.js:50-54 | the lock icon alone is found |
| Detect.NormalizedPrivate | src/content/main.detect.js:41 | "Private" normalizes to "private" |
| Detect.LowerTitlePrivate | src/content/main.detect.js:41 | "Private" lower-cases to "private" |
| Detect.NormalizedPaddedPrivate | src/content/main.detect.js:41 | "  PRIVATE\n" normalizes to "private" |
| Detect.LowerPrivate | src/content/main.detect.js:41 | "PRIVATE" lower-cases to "private" |
| Detect.NormalizedPublic | src/content/main.detect.js:41 | "Public" does not normalize to "private" |
| LegacyDetect.LooksLikeGithubRepoUrl | src/main.detect.js:2-11 | definition: the older detector, the same test as the current one |
| LegacyDetect.IsGithubRepoPageNow | src/main.detect.js:13-24 | definition: the older page test, the same three indicators |
| LegacyDetect.LooksLikeGithubRepoUrlRule | src/main.detect.js:2-11 | the older detector: true iff parseable, on github.com and with at least two segments |
| LegacyDetect.AgreesWithCurrent | src/main.detect.js:2-24 | the older URL and page detectors agree with the current ones on every input |
| LegacyDetect.PageNowIff | src/main.detect.js:13-24 | the same three-indicator disjunction (a restatement of the definition that Dafny proves unaided) |
| LegacyRepoUrl.IsRepoUrl | src/main.js:24-65 | definition: the older host switch with its seven hosts |
| LegacyRepoUrl.ForgeRule | src/main.js:44-47 | github.com and gitlab.com: at least two segments and an unreserved first one |
| LegacyRepoUrl.AgreesWithCurrent | src/main.js:24-65 | on its seven hosts the older rule answers as the current one; every other host and an unparseable URL give false |
| LegacyRepoUrl.ImpliesCurrent | src/main.js:24-65 | whatever the older rule accepts the current one accepts |
| LegacyRepoUrl.CodebergOnlyCurrent | src/main.js:59-60 | a Codeberg repository is rejected by the older rule and accepted by the current one |
| LegacyMain.LoadConfig | src/main.js:12-19 | keys are the defaults' and the stored ones; stored values override; nothing stored gives the defaults |
| LegacyMain.LoadConfigFallbacks | src/main.js:13-18 | unreadable storage, nothing stored, an empty string or a parse error all give the defaults |
| LegacyMain.Days | src/main.js:131 | definition: the number `getDate() - config.max_repo_update_time` subtracts; 0 for `null`, `false`, `""` and an all-white-space string; NaN for a missing key, an object or any other string |
| LegacyMain.Cutoff | src/main.js:130-131 | the cutoff is a valid date exactly when the day count is a number and `now` minus that many days lies within the ±8.64e15 ms a `Date` can hold (TimeClip), and it is then that time |
| LegacyMain.LatestUpload | src/main.js:111-114 | definition: the `reduce` over every upload time from `null`, replacing the running value when there is none or the upload is later |
| LegacyMain.LatestUploadIsMax | src/main.js:111-114 | with a valid first upload the fold returns a valid upload time that is at least every valid upload time |
| LegacyMain.FirstInvalidUploadSticks | src/main.js:111-114 | an invalid first upload time is never replaced |
| LegacyMain.CallFor | src/main.js:75-127 | definition: the request each supported host makes, and none for every other host |
| LegacyMain.IsRepoActive | src/main.js:68-137 | active only for a parseable URL on a supported host and a numeric day count |
| LegacyMain.UnsupportedHostInactive | src/main.js:124-127 | an unsupported host builds no request and is inactive |
| LegacyMain.FailedRequestInactive | src/main.js:134-136 | a request that throws or answers not ok gives false |
| LegacyMain.CutoffRule | src/main.js:130-133 | on single-date hosts: active iff the date is valid, the cutoff is a valid date and the date is at or after it |
| LegacyMain.PyPIRule | src/main.js:106-116 | on PyPI with a valid first upload: active iff the cutoff is a valid date and some valid upload is at or after it |
| LegacyMain.PyPINoFiles | src/main.js:111-114 | on PyPI with no files the fold stays null, which compares as time 0 against a valid cutoff |
| LegacyMain.PackagistAlwaysInactive | src/main.js:57-58 | a Packagist URL may be a repository URL but is never active |
| LegacyMain.NaNDaysInactive | src/main.js:130-132 | a NaN day count makes everything inactive |
| LegacyMain.FarCutoffInactive | src/main.js:130-132 | a day count that moves the cutoff out of a `Date`'s range makes it invalid and every repository inactive |
| LegacyMain.SettingText | src/main.js:222 | definition: `${config[key]}`, "undefined" for a missing key |
| LegacyMain.Mark | src/main.js:221-223 | the span is green iff active and red iff not, and its text ends with a space |
| LegacyMain.DefaultMarks | src/main.js:4-10 | with the defaults the marks read "✅ " and "❌ " |
| LegacyMain.MarkRepoLinks | src/main.js:215-227 | every pending link is flagged and gets, in front, the mark for its activity as seen by its own lookup, with the clock reading and the answers of that moment; every other link is unchanged; none is left pending |
| LegacyMain.MarkLink | src/main.js:219-224 | a pending link is flagged and the mark for its activity becomes its first child; it is no longer pending |
| LegacyMain.MarkedAt | src/main.js:218-224 | definition: what the pass leaves at one anchor, from its flag and children before |
| LegacyLinks.MarkText | src/main.links.js:29-34 | definition: the mark text for a status; `None` when reading `config[key].active` throws |
| LegacyLinks.MarkFor | src/main.links.js:28-42 | a mark exists iff the lookup and its text do not throw; its text is the status's text and its colour the status colour |
| LegacyLinks.MarkTextRule | src/main.links.js:29-34 | fixed private and rate-limited texts; the active and inactive texts follow their fields; reading a missing field throws; other statuses give "" |
| LegacyLinks.DefaultEmojisGiveEmptyText | src/main.links.js:32-33 | with the plain-string default configuration, true and false get empty text |
| LegacyLinks.Effect | src/main.links.js:23-43 | definition: what a pass does to one anchor: flagged only where it stopped, flagged and marked where it finished a pending anchor, untouched elsewhere |
| LegacyLinks.MarkLinksInDocument | src/main.links.js:21-45 | finished pending links are flagged and marked with the answer their own lookup got; at an abort the link is flagged but unmarked and the rest are untouched |
| LegacyLinks.MarkAnchor | src/main.links.js:25-42 | the flag is set first; the span becomes the first child exactly when the lookup and the mark text succeed, and the children are unchanged otherwise |
| LegacyLinks.MarkRepoLinks | src/main.links.js:2-19 | the top document first; when it completes, every frame with a document in turn, skipping those without one; nothing after an abort |
| LegacyLinks.MarkFrame | src/main.links.js:9-17 | a frame with a document gets its own pass and a frame without one is skipped; the anchors of the other documents are untouched |
| Emoji.Unique | src/emoji.js:74-84 | definition: each entry whose character no earlier entry has, in order |
| Emoji.UniqByChar | src/emoji.js:74-84 | the loop returns the entries whose character did not appear earlier |
| Emoji.UniqueDistinct | src/emoji.js:78-80 | no two entries of the result share a character |
| Emoji.UniqueCovers | src/emoji.js:77-82 | every character of the input is in the result |
| Emoji.UniqueKeepsFirst | src/emoji.js:78-81 | the first entry with each character is kept |
| Emoji.UniqueSubsequence | src/emoji.js:77-82 | the result keeps input order |
| Emoji.DuplicateLockDropped | src/emoji.js:68 | a second lock entry is dropped in favour of the first |
| Emoji.Matches | src/emoji.js:120-138 | definition: a non-empty name containing the normalised query, the character equal to the raw query, or a hexadecimal query naming one of its code points |
| Emoji.SliceEnd | src/emoji.js:121 | `slice(0, limit)` stops within the list, counting back from the end for a negative limit |
| Emoji.HexPart | src/emoji.js:124 | the query minus a leading "u+" |
| Emoji.Take | src/emoji.js:129 | the first `limit` hits, none for a limit of zero or less |
| Emoji.Search | src/emoji.js:119-141 | the loop returns exactly the specified results, with limit 250 when none is given |
| Emoji.FilterLimit | src/emoji.js:128-129 | a scan that stops once `limit` hits are collected returns the first `limit` hits of the whole list |
| Emoji.Results | src/emoji.js:119-141 | definition: the first `limit` entries for a blank query, else the first `limit` matches |
| Emoji.ResultsSubsequence | src/emoji.js:121-139 | results come from the list in list order |
| Emoji.ResultsBound | src/emoji.js:129 | a limit of zero or more bounds the number of results |
| Emoji.NegativeLimit | src/emoji.js:121-129 | a negative limit counts back from the end for a blank query and returns nothing for a real search |
| Emoji.BlankQueryLeadingEntries | src/emoji.js:120-121 | a blank query returns the first `limit` entries |
| Emoji.QueryHits | src/emoji.js:128-138 | every result matches the query, and while fewer than `limit` entries match, all of them are returned |
| Emoji.CodePointMeaning | src/emoji.js:136-137 | a hexadecimal match means the character holds the code point the digits denote |
| Emoji.HexQueryFindsCheckMark | src/emoji.js:124-137 | "U+2705" finds the ✅ entry |
| Emoji.HexOfCheckMark | src/emoji.js:136 | the code point of ✅ prints as "2705" |
| Emoji.UpperU | src/emoji.js:120 | "U+2705" lower-cases to "u+2705" |
| Js.Trim | src/content/main.detect.js:41 | trimming gives an infix of the string that starts and ends with no white space |
| Js.TrimIdempotent | src/content/main.detect.js:41 | trimming twice is trimming once |
| Js.TrimPadded | src/content/main.detect.js:41 | white space around a word is trimmed away |
| Js.ToLower | src/content/main.detect.js:41 | lower-casing keeps the length and maps each character |
| Js.ContainsIff | src/emoji.js:132 | `includes` holds iff the text occurs at some position |
| Js.Hex | src/emoji.js:136 | `toString(16)` gives lower-case digits with no leading zero |
| Js.HexRoundTrip | src/emoji.js:136 | reading the hexadecimal text back gives the number |
| Js.HexInjective | src/emoji.js:136-137 | different code points print differently |
| Js.ToText | src/main.js:222 | a template prints a string as itself |

## Left out

- URL parsing (the WHATWG `URL` constructor): hostname, pathname, query and fragment are given; `None` is a URL it rejects.
- `toLowerCase` maps the letters A–Z only. `trim` strips exactly ECMAScript's WhiteSpace and LineTerminator characters, with the Space_Separator category written out as a fixed list.
- `runWithConcurrency`: the lookup tasks run one after another, so its pool of six is not modelled.
- Links.Session.ProcessUniqueUrls: all lookups are made first and all links are annotated afterwards, because the source's interleaving of cached and looked-up annotations depends on promise timing. The final children and flags are the same, but the order in which the links change is not modelled.
- The debounce timer, the storage change listener, `waitForGithubRepoIndicators` and the bootstrap code: they are timing and orchestration.
- `fetch`, the background message and JSON decoding are parameters: `ApiCall -> Reply` (per anchor in `markRepoLinks`), `string -> Lookup` (per anchor in the older `markLinksInDocument`) and `string -> Option<Config>`. Within one pass of `processUniqueUrls` the lookup is one function of the address; every key is looked up at most once there.
- LegacyMain.IsRepoActive: `encodeURIComponent` and the request URLs are not formatted; the request is an `ApiCall` value. Dates are millisecond numbers; the clock is one `now` per call of `isRepoActive`.
- LegacyMain.Days: a numeric string (`"30"`, `" 7 "`, `"0x1e"`, `"Infinity"`) is treated as NaN rather than converted; only the empty and the all-white-space string give 0. An array setting cannot be written as a `Setting`, so the model does not capture that `[]` converts to 0 and `[7]` or `["7"]` to 7; every `Record` is an object, which is NaN.
- LegacyMain.Cutoff: day counts are integers, so a fractional `max_repo_update_time` from stored JSON, which `setDate` truncates through MakeDay, is not modelled. `setDate` is the subtraction of whole days in exact arithmetic, with no time zone and no daylight-saving shifts; its TimeClip is modelled.
- LegacyMain.LoadConfig: a parse result that is not an object contributes no properties. That the no-stored-value path returns the shared `defaultConfig` object itself, rather than a copy, is not modelled.
- LegacyMain.LatestUploadIsMax: when the first upload time is invalid, only the fact that it is kept is proved, not a maximum.
- `querySelectorAll('span')` in `annotateLink` finds spans at any depth; the model removes direct child spans only.
- `generateFromRanges` in `src/emoji.js`: it depends on Unicode property regular expressions, so the emoji list is an input, and the curated list's contents are not reproduced.
- Emoji.Search: `limit` is an integer or absent; `NaN` and fractional limits are not modelled, and the query is a string, not `undefined`. The unreachable `if (!q)` inside the loop has no counterpart.
- `createBanner`, `src/content/main.banner.js`, `src/popup.js`, `src/config.js`, `src/compat.js`, `src/background.js`: DOM construction, form input, a message wrapper and a browser shim.
- The rule engine, the status cache and the archived short-circuit of the background service are not part of this model.
