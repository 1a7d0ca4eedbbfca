/** The batch link pipeline of the content script: group the page's links by repository,
    look up each repository's status at most once per session, and mark every link. */
module Links {
  import opened Js
  import opened UrlPath
  import opened Dom
  import opened Seqs
  import opened Helpers
  import RepoUrl

  // ---------------------------------------------------------------------------------
  // Grouping (`dedupeLinks`)

  /** A link `dedupeLinks` keeps: a non-empty address that is a repository URL. */
  predicate Kept(l: Link) {
    l.href != "" && RepoUrl.IsRepoUrl(l.url)
  }

  /** The grouping key `u.hostname + u.pathname`. */
  function KeyOf(l: Link): string
    requires Kept(l)
  {
    l.url.value.hostname + l.url.value.pathname
  }

  /** The keys of the kept links, each once, in order of first appearance (the `Map`'s
      insertion order). */
  function KeyOrder(links: seq<Link>): seq<string> {
    if links == [] then []
    else
      var ks := KeyOrder(links[..|links| - 1]);
      var l := links[|links| - 1];
      if Kept(l) && KeyOf(l) !in ks then ks + [KeyOf(l)] else ks
  }

  /** The `Map` `dedupeLinks` builds: for each kept link, create its key's array if
      needed, then push the link onto it. */
  function GroupMap(links: seq<Link>): map<string, seq<Link>> {
    if links == [] then map[]
    else
      var m := GroupMap(links[..|links| - 1]);
      var l := links[|links| - 1];
      if !Kept(l) then m
      else
        var m' := if KeyOf(l) in m then m else m[KeyOf(l) := []];
        m'[KeyOf(l) := m'[KeyOf(l)] + [l]]
  }

  /** A `Map` from key to element array, with its insertion order. */
  datatype LinkGroups = LinkGroups(keys: seq<string>, members: map<string, seq<Link>>)

  /** The grouping of `links`. */
  function Grouping(links: seq<Link>): LinkGroups {
    LinkGroups(KeyOrder(links), GroupMap(links))
  }

  /** `dedupeLinks(links)`. */
  method DedupeLinks(links: seq<Link>) returns (g: LinkGroups)
    ensures g == Grouping(links)
  {
    var keys: seq<string> := [];
    var members: map<string, seq<Link>> := map[];
    var i := 0;
    while i < |links|
      invariant 0 <= i <= |links|
      invariant keys == KeyOrder(links[..i])
      invariant members == GroupMap(links[..i])
      invariant forall k :: k in members <==> k in keys
    {
      var el := links[i];
      assert links[..i + 1][..i] == links[..i];
      if el.href != "" && RepoUrl.IsRepoUrl(el.url) {
        var key := el.url.value.hostname + el.url.value.pathname;
        if key !in members {
          keys := keys + [key];
          members := members[key := []];
        }
        members := members[key := members[key] + [el]];
      }
      i := i + 1;
    }
    assert links[..i] == links;
    g := LinkGroups(keys, members);
  }

  /** The keys are pairwise distinct. */
  lemma {:induction false} KeyOrderDistinct(links: seq<Link>)
    ensures forall i, j :: 0 <= i < j < |KeyOrder(links)| ==> KeyOrder(links)[i] != KeyOrder(links)[j]
  {
    if links != [] {
      KeyOrderDistinct(links[..|links| - 1]);
    }
  }

  /** Every key comes from a kept link that has it. */
  lemma {:induction false} KeyOrderSound(links: seq<Link>, k: string) returns (i: nat)
    requires k in KeyOrder(links)
    ensures i < |links| && Kept(links[i]) && KeyOf(links[i]) == k
  {
    var n := |links| - 1;
    if k in KeyOrder(links[..n]) {
      i := KeyOrderSound(links[..n], k);
      assert links[..n][i] == links[i];
    } else {
      i := n;
    }
  }

  /** Every kept link's key is among the keys. */
  lemma {:induction false} KeyOrderComplete(links: seq<Link>, i: nat)
    requires i < |links| && Kept(links[i])
    ensures KeyOf(links[i]) in KeyOrder(links)
  {
    var n := |links| - 1;
    if i < n {
      assert links[..n][i] == links[i];
      KeyOrderComplete(links[..n], i);
    }
  }

  /** A key appears iff some kept link has it. */
  lemma KeyOrderIff(links: seq<Link>, k: string)
    ensures k in KeyOrder(links) <==> exists i :: 0 <= i < |links| && Kept(links[i]) && KeyOf(links[i]) == k
  {
    if k in KeyOrder(links) {
      var i := KeyOrderSound(links, k);
    }
    if exists i :: 0 <= i < |links| && Kept(links[i]) && KeyOf(links[i]) == k {
      var i :| 0 <= i < |links| && Kept(links[i]) && KeyOf(links[i]) == k;
      KeyOrderComplete(links, i);
    }
  }

  /** The map has exactly the keys of the key order, and no empty array. */
  lemma {:induction false} GroupMapKeys(links: seq<Link>)
    ensures forall k :: k in GroupMap(links) <==> k in KeyOrder(links)
    ensures forall k :: k in GroupMap(links) ==> GroupMap(links)[k] != []
  {
    if links != [] {
      GroupMapKeys(links[..|links| - 1]);
    }
  }

  /** A link is under key `k` iff it is one of the links, it is kept, and its key is `k`. */
  lemma {:induction false} GroupMapMembers(links: seq<Link>, k: string, l: Link)
    requires k in GroupMap(links)
    ensures l in GroupMap(links)[k] <==> l in links && Kept(l) && KeyOf(l) == k
  {
    var n := |links| - 1;
    var m := GroupMap(links[..n]);
    assert links == links[..n] + [links[n]];
    if k in m {
      GroupMapMembers(links[..n], k, l);
    } else {
      GroupMapKeys(links[..n]);
      if exists i :: 0 <= i < n && links[..n][i] == l && Kept(l) && KeyOf(l) == k {
        var i :| 0 <= i < n && links[..n][i] == l && Kept(l) && KeyOf(l) == k;
        KeyOrderComplete(links[..n], i);
      }
    }
  }

  /** Each key's array keeps the input order of its links. */
  lemma {:induction false} GroupMapOrder(links: seq<Link>, k: string)
    requires k in GroupMap(links)
    ensures IsSubsequence(GroupMap(links)[k], links)
  {
    var n := |links| - 1;
    var m := GroupMap(links[..n]);
    var l := links[n];
    assert links == links[..n] + [l];
    if k in m {
      GroupMapOrder(links[..n], k);
      if Kept(l) && KeyOf(l) == k {
        SubsequenceTake(m[k], links[..n], l);
      } else {
        SubsequenceSkip(m[k], links[..n], l);
      }
    } else {
      assert GroupMap(links)[k] == [l];
      assert IsSubsequence([], links[..n]) by {
        EmptySubsequence(links[..n]);
      }
      SubsequenceTake([], links[..n], l);
    }
  }

  /** Every kept link appears under exactly one key, its own. */
  lemma ExactlyOneKey(links: seq<Link>, l: Link)
    requires l in links && Kept(l)
    ensures KeyOf(l) in Grouping(links).members && l in Grouping(links).members[KeyOf(l)]
    ensures forall k :: k in Grouping(links).members && l in Grouping(links).members[k] ==> k == KeyOf(l)
  {
    var i :| 0 <= i < |links| && links[i] == l;
    KeyOrderComplete(links, i);
    GroupMapKeys(links);
    GroupMapMembers(links, KeyOf(l), l);
    forall k | k in Grouping(links).members && l in Grouping(links).members[k]
      ensures k == KeyOf(l)
    {
      GroupMapMembers(links, k, l);
    }
  }

  /** Dropped links (an empty address or not a repository URL) appear under no key. */
  lemma DroppedLinks(links: seq<Link>, l: Link)
    requires !Kept(l)
    ensures forall k :: k in Grouping(links).members ==> l !in Grouping(links).members[k]
  {
    forall k | k in Grouping(links).members
      ensures l !in Grouping(links).members[k]
    {
      GroupMapMembers(links, k, l);
    }
  }

  /** Links that differ only in their query or fragment share one key. */
  lemma QueryAndFragmentIgnored(a: Link, b: Link)
    requires Kept(a) && b.href != "" && b.url.Some?
    requires b.url.value.hostname == a.url.value.hostname && b.url.value.pathname == a.url.value.pathname
    ensures Kept(b) && KeyOf(b) == KeyOf(a)
  {
  }

  /** The address with a trailing slash is the same repository but a different key, so
      it is grouped, and looked up, separately. */
  lemma TrailingSlashSplitsKey(a: Link, b: Link)
    requires Kept(a) && b.href != "" && b.url.Some?
    requires b.url.value.hostname == a.url.value.hostname
    requires b.url.value.pathname == a.url.value.pathname + "/"
    ensures Kept(b) && KeyOf(b) != KeyOf(a)
  {
    TrailingSlash(a.url.value.pathname);
    assert |KeyOf(b)| == |KeyOf(a)| + 1;
  }

  /** What `processUniqueUrls` relies on from its `Map`: distinct keys in order, exactly
      the keys of the map, non-empty element arrays, and no element under two keys. */
  ghost predicate WellFormed(g: LinkGroups) {
    (forall i, j :: 0 <= i < j < |g.keys| ==> g.keys[i] != g.keys[j])
    && (forall k :: k in g.members <==> k in g.keys)
    && (forall k :: k in g.members ==> g.members[k] != [])
    && (forall k1, k2, l :: k1 in g.members && k2 in g.members && l in g.members[k1] && l in g.members[k2] ==> k1 == k2)
  }

  /** The output of `dedupeLinks` is well formed. */
  lemma GroupingWellFormed(links: seq<Link>)
    ensures WellFormed(Grouping(links))
  {
    var g := Grouping(links);
    KeyOrderDistinct(links);
    GroupMapKeys(links);
    forall k1, k2, l | k1 in g.members && k2 in g.members && l in g.members[k1] && l in g.members[k2]
      ensures k1 == k2
    {
      GroupMapMembers(links, k1, l);
      GroupMapMembers(links, k2, l);
    }
  }

  // ---------------------------------------------------------------------------------
  // Marking one link (`annotateLink`)

  /** The global `config`: emoji fields by name; a missing field is absent. */
  type Config = map<string, Helpers.Field>

  function FieldOf(cfg: Config, name: string): Option<Helpers.Field> {
    if name in cfg then Some(cfg[name]) else None
  }

  /** The four emoji fields `annotateLink` reads from the configuration. */
  datatype EmojiFields = EmojiFields(
    privateField: Option<Helpers.Field>,     // config.emoji_private
    rateLimitedField: Option<Helpers.Field>, // config.emoji_rate_limited
    activeField: Option<Helpers.Field>,      // config.emoji_active
    inactiveField: Option<Helpers.Field>)    // config.emoji_inactive

  function EmojiFieldsOf(cfg: Config): EmojiFields {
    EmojiFields(FieldOf(cfg, "emoji_private"), FieldOf(cfg, "emoji_rate_limited"),
                FieldOf(cfg, "emoji_active"), FieldOf(cfg, "emoji_inactive"))
  }

  /** `field?.value`. */
  function ValueOf(f: Option<Helpers.Field>): JsValue {
    if f.Some? then f.value.value else Undefined
  }

  /** The disabled test of `getEmoji`: a missing field, or `active` strictly `false` or
      the string "false". */
  predicate Enabled(f: Option<Helpers.Field>) {
    f.Some? && f.value.active != Bool(false) && f.value.active != Str("false")
  }

  /** `getEmoji(field, fallback)`. */
  function EmojiOf(f: Option<Helpers.Field>, fallback: string): JsValue {
    if !Enabled(f) then Str("")
    else if Truthy(f.value.value) then f.value.value
    else Str(fallback)
  }

  /** The four statuses that have an emoji. */
  predicate HasEmoji(status: JsValue) {
    status == Str("private") || status == Str("rate_limited") || status == Bool(true) || status == Bool(false)
  }

  /** The field whose emoji marks a status that has one. */
  function FieldFor(e: EmojiFields, status: JsValue): Option<Helpers.Field>
    requires HasEmoji(status)
  {
    if status == Str("private") then e.privateField
    else if status == Str("rate_limited") then e.rateLimitedField
    else if status == Bool(true) then e.activeField
    else e.inactiveField
  }

  /** The `icon` chosen for `status`: the private, rate-limited, active or inactive emoji,
      each with its built-in fallback, and "" for every other status. */
  function Icon(e: EmojiFields, status: JsValue): JsValue {
    if status == Str("private") then EmojiOf(e.privateField, "🔒")
    else if status == Str("rate_limited") then EmojiOf(e.rateLimitedField, "⏳")
    else if status == Bool(true) then EmojiOf(e.activeField, "✅")
    else if status == Bool(false) then EmojiOf(e.inactiveField, "❌")
    else Str("")
  }

  /** `knownEmojis`: the truthy configured emoji values and the four garbled legacy marks. */
  function KnownEmojis(e: EmojiFields): set<JsValue> {
    set v | v in [ValueOf(e.privateField), ValueOf(e.rateLimitedField),
                  ValueOf(e.activeField), ValueOf(e.inactiveField),
                  Str("dY\"'"), Str("ƒ?3"), Str("ƒo."), Str("ƒ?O")] && Truthy(v)
  }

  /** A span the new pass removes: the mark class, or trimmed text that is a known emoji. */
  predicate IsPriorMark(known: set<JsValue>, n: Node) {
    n.Span? && ("repo-checker-mark" in n.classes || Str(Trim(n.text)) in known)
  }

  /** The children left once the prior marks are removed. */
  function WithoutPriorMarks(known: set<JsValue>, nodes: seq<Node>): seq<Node> {
    if nodes == [] then []
    else
      var kept := WithoutPriorMarks(known, nodes[..|nodes| - 1]);
      if IsPriorMark(known, nodes[|nodes| - 1]) then kept else kept + [nodes[|nodes| - 1]]
  }

  /** The colour of a mark: grey for private, orange for rate limited, green for
      active and red for everything else. */
  function MarkColor(status: JsValue): string {
    if status == Str("private") then "#555"
    else if status == Str("rate_limited") then "#f57c00"
    else if status == Bool(true) then "green"
    else "red"
  }

  /** The tooltip; "" when none is set. */
  function MarkTitle(status: JsValue): string {
    if status == Bool(true) then "Active repository"
    else if status == Bool(false) then "Inactive repository"
    else if status == Str("private") then "Private repository"
    else if status == Str("rate_limited") then "Rate limited"
    else ""
  }

  /** The new mark span. */
  function NewMark(icon: JsValue, status: JsValue): Node {
    Span({"repo-checker-mark"}, ToText(icon) + " ", MarkColor(status), MarkTitle(status))
  }

  /** The children after the prior marks among `children` are removed and, when `icon`
      is truthy, the new mark is prepended. */
  function Remarked(known: set<JsValue>, icon: JsValue, status: JsValue, children: seq<Node>): seq<Node> {
    var kept := WithoutPriorMarks(known, children);
    if Truthy(icon) then [NewMark(icon, status)] + kept else kept
  }

  /** The children of a link after `annotateLink(link, status)`. */
  function Annotated(cfg: Config, status: JsValue, children: seq<Node>): seq<Node> {
    var e := EmojiFieldsOf(cfg);
    Remarked(KnownEmojis(e), Icon(e, status), status, children)
  }

  /** `annotateLink(link, status)`: flag the link, remove prior marks, prepend the new one. */
  method AnnotateLink(link: Link, cfg: Config, status: JsValue)
    modifies link
    ensures link.repoChecked == Some("true")
    ensures link.children == Annotated(cfg, status, old(link.children))
  {
    link.repoChecked := Some("true");
    var e := EmojiFieldsOf(cfg);
    var known := KnownEmojis(e);
    var kept: seq<Node> := [];
    var i := 0;
    while i < |link.children|
      invariant 0 <= i <= |link.children|
      invariant kept == WithoutPriorMarks(known, link.children[..i])
    {
      var node := link.children[i];
      assert link.children[..i + 1][..i] == link.children[..i];
      if !IsPriorMark(known, node) {
        kept := kept + [node];
      }
      i := i + 1;
    }
    assert link.children[..i] == link.children;
    var icon := Icon(e, status);
    if !Truthy(icon) {
      link.children := kept;
      return;
    }
    link.children := [NewMark(icon, status)] + kept;
  }

  /** Removal keeps exactly the children that are not prior marks. */
  lemma {:induction false} WithoutPriorMarksIff(known: set<JsValue>, nodes: seq<Node>, n: Node)
    ensures n in WithoutPriorMarks(known, nodes) <==> n in nodes && !IsPriorMark(known, n)
  {
    if nodes != [] {
      var m := |nodes| - 1;
      WithoutPriorMarksIff(known, nodes[..m], n);
      assert nodes == nodes[..m] + [nodes[m]];
    }
  }

  /** Removal keeps the order of the remaining children. */
  lemma {:induction false} WithoutPriorMarksOrder(known: set<JsValue>, nodes: seq<Node>)
    ensures IsSubsequence(WithoutPriorMarks(known, nodes), nodes)
  {
    if nodes != [] {
      var m := |nodes| - 1;
      WithoutPriorMarksOrder(known, nodes[..m]);
      assert nodes == nodes[..m] + [nodes[m]];
      if IsPriorMark(known, nodes[m]) {
        SubsequenceSkip(WithoutPriorMarks(known, nodes[..m]), nodes[..m], nodes[m]);
      } else {
        SubsequenceTake(WithoutPriorMarks(known, nodes[..m]), nodes[..m], nodes[m]);
      }
    }
  }

  /** Removal works child by child. */
  lemma {:induction false} WithoutPriorMarksConcat(known: set<JsValue>, a: seq<Node>, b: seq<Node>)
    ensures WithoutPriorMarks(known, a + b) == WithoutPriorMarks(known, a) + WithoutPriorMarks(known, b)
  {
    if b != [] {
      var m := |b| - 1;
      WithoutPriorMarksConcat(known, a, b[..m]);
      assert (a + b)[..|a + b| - 1] == a + b[..m];
    } else {
      assert a + b == a;
    }
  }

  /** Children with no prior mark among them are left as they are. */
  lemma {:induction false} WithoutPriorMarksNoop(known: set<JsValue>, nodes: seq<Node>)
    requires forall i :: 0 <= i < |nodes| ==> !IsPriorMark(known, nodes[i])
    ensures WithoutPriorMarks(known, nodes) == nodes
  {
    if nodes != [] {
      var m := |nodes| - 1;
      WithoutPriorMarksNoop(known, nodes[..m]);
      assert nodes == nodes[..m] + [nodes[m]];
    }
  }

  /** An enabled field with a fallback always yields a truthy icon, its value when that is
      truthy and the fallback otherwise; a disabled or missing field yields "". */
  lemma EmojiOfRule(f: Option<Helpers.Field>, fallback: string)
    requires fallback != ""
    ensures Truthy(EmojiOf(f, fallback)) <==> Enabled(f)
    ensures !Enabled(f) ==> EmojiOf(f, fallback) == Str("")
    ensures Enabled(f) && Truthy(f.value.value) ==> EmojiOf(f, fallback) == f.value.value
    ensures Enabled(f) && !Truthy(f.value.value) ==> EmojiOf(f, fallback) == Str(fallback)
  {
  }

  /** The new mark is the first child exactly when the icon is truthy: no surviving
      child can be mistaken for it. */
  lemma {:induction false} RemarkedStartsWithMark(known: set<JsValue>, icon: JsValue, status: JsValue, children: seq<Node>)
    ensures var r := Remarked(known, icon, status, children);
            (r != [] && r[0] == NewMark(icon, status)) <==> Truthy(icon)
  {
    var kept := WithoutPriorMarks(known, children);
    if !Truthy(icon) && kept != [] {
      WithoutPriorMarksIff(known, children, kept[0]);
    }
  }

  /** Afterwards only the first child may be a mark, and then it is the new one; every
      child that is not a prior mark survives. */
  lemma {:induction false} RemarkedMarks(known: set<JsValue>, icon: JsValue, status: JsValue, children: seq<Node>)
    ensures var r := Remarked(known, icon, status, children);
            forall i :: 0 <= i < |r| && IsPriorMark(known, r[i]) ==>
              i == 0 && Truthy(icon) && r[0] == NewMark(icon, status)
    ensures forall n :: n in children && !IsPriorMark(known, n) ==> n in Remarked(known, icon, status, children)
  {
    var kept := WithoutPriorMarks(known, children);
    var r := Remarked(known, icon, status, children);
    forall i | 0 <= i < |r| && IsPriorMark(known, r[i])
      ensures i == 0 && Truthy(icon) && r[0] == NewMark(icon, status)
    {
      if Truthy(icon) && i > 0 {
        assert r[i] == kept[i - 1];
        WithoutPriorMarksIff(known, children, r[i]);
      } else if !Truthy(icon) {
        WithoutPriorMarksIff(known, children, r[i]);
      }
    }
    forall n | n in children && !IsPriorMark(known, n)
      ensures n in r
    {
      WithoutPriorMarksIff(known, children, n);
    }
  }

  /** Doing it twice with the same icon leaves what doing it once left. */
  lemma {:induction false} RemarkedIdempotent(known: set<JsValue>, icon: JsValue, status: JsValue, children: seq<Node>)
    ensures Remarked(known, icon, status, Remarked(known, icon, status, children))
            == Remarked(known, icon, status, children)
  {
    var kept := WithoutPriorMarks(known, children);
    PriorMarksGone(known, children);
    if Truthy(icon) {
      var m := NewMark(icon, status);
      var once := [m] + kept;
      WithoutPriorMarksConcat(known, [m], kept);
      NewMarkDropped(known, icon, status);
      assert WithoutPriorMarks(known, once) == kept;
    }
  }

  /** Removing the prior marks a second time removes nothing. */
  lemma PriorMarksGone(known: set<JsValue>, children: seq<Node>)
    ensures WithoutPriorMarks(known, WithoutPriorMarks(known, children)) == WithoutPriorMarks(known, children)
  {
    var kept := WithoutPriorMarks(known, children);
    forall i | 0 <= i < |kept|
      ensures !IsPriorMark(known, kept[i])
    {
      WithoutPriorMarksIff(known, children, kept[i]);
    }
    WithoutPriorMarksNoop(known, kept);
  }

  /** A new mark is itself a prior mark to the next annotation. */
  lemma NewMarkDropped(known: set<JsValue>, icon: JsValue, status: JsValue)
    ensures WithoutPriorMarks(known, [NewMark(icon, status)]) == []
  {
    var m := NewMark(icon, status);
    assert "repo-checker-mark" in m.classes;
    assert [m][..0] == [];
  }

  /** The icon is truthy iff the status has an emoji and its field is enabled. */
  lemma IconIff(e: EmojiFields, status: JsValue)
    ensures Truthy(Icon(e, status)) <==> HasEmoji(status) && Enabled(FieldFor(e, status))
  {
    if HasEmoji(status) {
      EmojiOfRule(FieldFor(e, status), if status == Str("private") then "🔒"
                                       else if status == Str("rate_limited") then "⏳"
                                       else if status == Bool(true) then "✅" else "❌");
    }
  }

  /** `annotateLink` adds a mark iff the status is 'private', 'rate_limited', true or
      false and that status's emoji field is enabled. The mark is then the first child,
      reads the icon followed by a space, and is the only mark left: every prior mark
      is gone and every other child survives, in order. */
  lemma AnnotatedShape(cfg: Config, status: JsValue, children: seq<Node>)
    ensures var e := EmojiFieldsOf(cfg);
            var r := Annotated(cfg, status, children);
            (r != [] && r[0] == NewMark(Icon(e, status), status)) <==>
            HasEmoji(status) && Enabled(FieldFor(e, status))
    ensures var e := EmojiFieldsOf(cfg);
            var r := Annotated(cfg, status, children);
            forall i :: 0 <= i < |r| && IsPriorMark(KnownEmojis(e), r[i]) ==>
              i == 0 && r[0] == NewMark(Icon(e, status), status)
              && r[0].text == ToText(Icon(e, status)) + " "
    ensures forall n :: n in children && !IsPriorMark(KnownEmojis(EmojiFieldsOf(cfg)), n) ==>
              n in Annotated(cfg, status, children)
    ensures IsSubsequence(WithoutPriorMarks(KnownEmojis(EmojiFieldsOf(cfg)), children), children)
  {
    var e := EmojiFieldsOf(cfg);
    var known := KnownEmojis(e);
    var icon := Icon(e, status);
    IconIff(e, status);
    RemarkedStartsWithMark(known, icon, status, children);
    RemarkedMarks(known, icon, status, children);
    WithoutPriorMarksOrder(known, children);
  }

  /** Annotating twice with the same status leaves what annotating once left. */
  lemma AnnotatedIdempotent(cfg: Config, status: JsValue, children: seq<Node>)
    ensures Annotated(cfg, status, Annotated(cfg, status, children)) == Annotated(cfg, status, children)
  {
    var e := EmojiFieldsOf(cfg);
    RemarkedIdempotent(KnownEmojis(e), Icon(e, status), status, children);
  }

  /** First case of the unit tests: the inactive emoji is disabled, so a `false` status
      adds no span to an empty link. */
  lemma InactiveEmojiDisabled()
    ensures Annotated(map[
              "emoji_private" := Helpers.Field(Bool(false), Str("🔒")),
              "emoji_rate_limited" := Helpers.Field(Bool(true), Str("⏳")),
              "emoji_active" := Helpers.Field(Bool(true), Str("✅")),
              "emoji_inactive" := Helpers.Field(Bool(false), Str("❌"))], Bool(false), []) == []
  {
  }

  /** Second case: all emojis enabled, so a `false` status adds one span reading "❌". */
  lemma InactiveEmojiRendered()
    ensures var r := Annotated(map[
              "emoji_private" := Helpers.Field(Bool(true), Str("🔒")),
              "emoji_rate_limited" := Helpers.Field(Bool(true), Str("⏳")),
              "emoji_active" := Helpers.Field(Bool(true), Str("✅")),
              "emoji_inactive" := Helpers.Field(Bool(true), Str("❌"))], Bool(false), []);
            |r| == 1 && r[0].Span? && Trim(r[0].text) == "❌"
  {
    var t := "❌ ";
    assert t[..1] == "❌";
    TrimEndNoop("❌");
    TrimStartNoop("❌ ");
  }

  // ---------------------------------------------------------------------------------
  // The session cache (`processUniqueUrls`)

  /** The status a lookup task records: `false` when the lookup throws. */
  function Resolve(outcome: Lookup): JsValue {
    match outcome
    case Threw => Bool(false)
    case Returned(r) => Helpers.IsRepoActive(r)
  }

  /** The keys of `keys` that are not cached, in order: the lookup tasks. */
  function Uncached(keys: seq<string>, cache: map<string, JsValue>): (r: seq<string>)
    ensures forall k :: k in r ==> k in keys && k !in cache
  {
    if keys == [] then []
    else
      var ks := Uncached(keys[..|keys| - 1], cache);
      if keys[|keys| - 1] in cache then ks else ks + [keys[|keys| - 1]]
  }

  /** Exactly the uncached keys get a task, each once. */
  lemma {:induction false} UncachedExact(keys: seq<string>, cache: map<string, JsValue>)
    requires forall i, j :: 0 <= i < j < |keys| ==> keys[i] != keys[j]
    ensures forall k :: k in Uncached(keys, cache) <==> k in keys && k !in cache
    ensures var r := Uncached(keys, cache); forall i, j :: 0 <= i < j < |r| ==> r[i] != r[j]
  {
    if keys != [] {
      var n := |keys| - 1;
      UncachedExact(keys[..n], cache);
      assert keys == keys[..n] + [keys[n]];
      assert keys[n] !in keys[..n];
      assert keys[n] !in Uncached(keys[..n], cache);
    }
  }

  /** The status of the first element's lookup for key `k`. */
  function Resolved(g: LinkGroups, lookup: string -> Lookup, k: string): JsValue
    requires k in g.members && g.members[k] != []
  {
    Resolve(lookup(g.members[k][0].href))
  }

  /** The status every element of key `k` receives: the cached one, else the lookup's. */
  function StatusOf(cache: map<string, JsValue>, g: LinkGroups, lookup: string -> Lookup, k: string): JsValue
    requires k in g.members && g.members[k] != []
  {
    if k in cache then cache[k] else Resolved(g, lookup, k)
  }

  /** The links of all groups. */
  function Members(g: LinkGroups): set<Link> {
    set k, l | k in g.members && l in g.members[k] :: l
  }

  /** `elements.forEach(el => annotateLink(el, status))`. */
  method AnnotateAll(elements: seq<Link>, cfg: Config, status: JsValue)
    modifies set l | l in elements
    ensures forall l :: l in elements ==>
              l.repoChecked == Some("true") && l.children == Annotated(cfg, status, old(l.children))
  {
    var j := 0;
    while j < |elements|
      invariant 0 <= j <= |elements|
      invariant forall l :: l in elements[..j] ==>
                  l.repoChecked == Some("true") && l.children == Annotated(cfg, status, old(l.children))
      invariant forall l :: l in elements && l !in elements[..j] ==>
                  l.repoChecked == old(l.repoChecked) && l.children == old(l.children)
    {
      var el := elements[j];
      assert elements[..j + 1] == elements[..j] + [el];
      if el in elements[..j] {
        AnnotatedIdempotent(cfg, status, old(el.children));
      }
      AnnotateLink(el, cfg, status);
      j := j + 1;
    }
    assert elements[..j] == elements;
  }

  /** Annotating the elements of one key leaves the elements of every other key alone. */
  method AnnotateKey(g: LinkGroups, key: string, cfg: Config, status: JsValue)
    requires WellFormed(g) && key in g.members
    modifies set l | l in g.members[key]
    ensures forall k, l :: k in g.members && l in g.members[k] ==>
              if k == key then
                l.repoChecked == Some("true") && l.children == Annotated(cfg, status, old(l.children))
              else
                l.repoChecked == old(l.repoChecked) && l.children == old(l.children)
  {
    AnnotateAll(g.members[key], cfg, status);
  }

  /** Every element of every group receives its key's status. */
  method AnnotateGroups(g: LinkGroups, cfg: Config, statuses: map<string, JsValue>)
    requires WellFormed(g)
    requires forall k :: k in g.members ==> k in statuses
    modifies Members(g)
    ensures forall k, l :: k in g.members && l in g.members[k] ==>
              l.repoChecked == Some("true") && l.children == Annotated(cfg, statuses[k], old(l.children))
  {
    var i := 0;
    while i < |g.keys|
      invariant 0 <= i <= |g.keys|
      invariant forall k, l :: k in g.members && l in g.members[k] ==>
                  if k in g.keys[..i] then
                    l.repoChecked == Some("true") && l.children == Annotated(cfg, statuses[k], old(l.children))
                  else
                    l.repoChecked == old(l.repoChecked) && l.children == old(l.children)
    {
      var key := g.keys[i];
      assert g.keys[..i + 1] == g.keys[..i] + [key];
      assert key !in g.keys[..i];
      AnnotateKey(g, key, cfg, statuses[key]);
      i := i + 1;
    }
    assert g.keys[..i] == g.keys;
  }

  /** The page session: the module-level `__linkStatusCache`. */
  class Session {
    var cache: map<string, JsValue>

    constructor ()
      ensures cache == map[]
    {
      cache := map[];
    }

    /** The first loop of `processUniqueUrls`: every key not in the cache becomes a
        task, in map order. */
    method PendingKeys(g: LinkGroups) returns (tasks: seq<string>)
      ensures tasks == Uncached(g.keys, cache)
    {
      tasks := [];
      var i := 0;
      while i < |g.keys|
        invariant 0 <= i <= |g.keys|
        invariant tasks == Uncached(g.keys[..i], cache)
      {
        assert g.keys[..i + 1] == g.keys[..i] + [g.keys[i]];
        if g.keys[i] !in cache {
          tasks := tasks + [g.keys[i]];
        }
        i := i + 1;
      }
      assert g.keys[..i] == g.keys;
    }

    /** The lookups of the tasks, one after another: the first element's address is
        looked up, `false` stands in when that throws, and the status is cached. */
    method RunLookups(g: LinkGroups, lookup: string -> Lookup, tasks: seq<string>)
      returns (requested: seq<string>)
      requires WellFormed(g)
      requires forall k :: k in tasks ==> k in g.members
      modifies this
      ensures |requested| == |tasks|
      ensures forall i :: 0 <= i < |tasks| ==> requested[i] == g.members[tasks[i]][0].href
      ensures forall k :: k in cache <==> k in old(cache) || k in tasks
      ensures forall k :: k in old(cache) && k !in tasks ==> cache[k] == old(cache)[k]
      ensures forall k :: k in tasks ==> cache[k] == Resolved(g, lookup, k)
    {
      requested := [];
      var j := 0;
      while j < |tasks|
        invariant 0 <= j <= |tasks|
        invariant |requested| == j
        invariant forall t :: 0 <= t < j ==> requested[t] == g.members[tasks[t]][0].href
        invariant forall k :: k in cache <==> k in old(cache) || k in tasks[..j]
        invariant forall k :: k in old(cache) && k !in tasks[..j] ==> cache[k] == old(cache)[k]
        invariant forall k :: k in tasks[..j] ==> cache[k] == Resolved(g, lookup, k)
      {
        var key := tasks[j];
        assert tasks[..j + 1] == tasks[..j] + [key];
        var elements := g.members[key];
        var url := elements[0].href;
        var status := Resolve(lookup(url));
        requested := requested + [url];
        cache := cache[key := status];
        j := j + 1;
      }
      assert tasks[..j] == tasks;
    }

    /** `processUniqueUrls(map)`. A cached key keeps its cached status and is looked up
        no more; every other key is looked up exactly once, by its first element's
        address, and the status (`false` when the lookup throws) is cached. Every element
        of a key receives the key's status, the one now in the cache. `requested` lists
        the addresses passed to the lookup, in call order. */
    method ProcessUniqueUrls(g: LinkGroups, cfg: Config, lookup: string -> Lookup)
      returns (lookedUp: seq<string>, requested: seq<string>)
      requires WellFormed(g)
      modifies this, Members(g)
      ensures lookedUp == Uncached(g.keys, old(cache))
      ensures |requested| == |lookedUp|
      ensures forall i :: 0 <= i < |lookedUp| ==> requested[i] == g.members[lookedUp[i]][0].href
      ensures forall k :: k in cache <==> k in old(cache) || k in g.members
      ensures forall k :: k in old(cache) ==> cache[k] == old(cache)[k]
      ensures forall k :: k in g.members && k !in old(cache) ==> cache[k] == Resolved(g, lookup, k)
      ensures forall k, l :: k in g.members && l in g.members[k] ==>
                l.repoChecked == Some("true") && l.children == Annotated(cfg, cache[k], old(l.children))
    {
      lookedUp, requested := LookUpUncached(g, lookup);
      AnnotateGroups(g, cfg, cache);
    }

    /** The two loops of `processUniqueUrls` before the annotation: the tasks for the
        uncached keys, then their lookups, each status cached. */
    method LookUpUncached(g: LinkGroups, lookup: string -> Lookup)
      returns (lookedUp: seq<string>, requested: seq<string>)
      requires WellFormed(g)
      modifies this
      ensures lookedUp == Uncached(g.keys, old(cache))
      ensures |requested| == |lookedUp|
      ensures forall i :: 0 <= i < |lookedUp| ==> requested[i] == g.members[lookedUp[i]][0].href
      ensures forall k :: k in cache <==> k in old(cache) || k in g.members
      ensures forall k :: k in old(cache) ==> cache[k] == old(cache)[k]
      ensures forall k :: k in g.members && k !in old(cache) ==> cache[k] == Resolved(g, lookup, k)
    {
      ghost var before := cache;
      lookedUp := PendingKeys(g);
      UncachedExact(g.keys, cache);
      requested := RunLookups(g, lookup, lookedUp);
      CacheAfterLookups(g, lookup, before, cache, lookedUp);
    }
  }

  /** The cache after the lookup tasks of `processUniqueUrls` have run: it holds every
      key, the old entries unchanged and each new one the status of its lookup. */
  lemma CacheAfterLookups(g: LinkGroups, lookup: string -> Lookup, before: map<string, JsValue>,
                          after: map<string, JsValue>, tasks: seq<string>)
    requires WellFormed(g)
    requires tasks == Uncached(g.keys, before)
    requires forall k :: k in after <==> k in before || k in tasks
    requires forall k :: k in before && k !in tasks ==> after[k] == before[k]
    requires forall k :: k in tasks ==> after[k] == Resolved(g, lookup, k)
    ensures forall k :: k in after <==> k in before || k in g.members
    ensures forall k :: k in before ==> after[k] == before[k]
    ensures forall k :: k in g.members && k !in before ==> after[k] == Resolved(g, lookup, k)
  {
    UncachedExact(g.keys, before);
  }

  /** A second pass over the same groups looks nothing up: every key is cached. */
  lemma SecondPassLooksUpNothing(g: LinkGroups, cache: map<string, JsValue>)
    requires WellFormed(g)
    requires forall k :: k in g.members ==> k in cache
    ensures Uncached(g.keys, cache) == []
  {
    UncachedExact(g.keys, cache);
    if Uncached(g.keys, cache) != [] {
      assert Uncached(g.keys, cache)[0] in Uncached(g.keys, cache);
    }
  }
}
