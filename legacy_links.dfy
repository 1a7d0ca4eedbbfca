/** The link marking of the first content-script generation: each document's anchors
    are flagged once and get one coloured span, the top document before its frames. */
module LegacyLinks {
  import opened Js
  import opened UrlPath
  import opened Dom
  import opened Helpers
  import RepoUrl
  import Links
  import LegacyMain

  type Config = LegacyMain.Config

  /** `config[key]` is `undefined` or `null`, so reading a property of it throws. */
  predicate Unreadable(cfg: Config, key: string) {
    key !in cfg || cfg[key] == LegacyMain.Plain(Undefined) || cfg[key] == LegacyMain.Plain(Null)
  }

  /** `config[key][prop]` when `config[key]` can be read: a property of an object, and
      `undefined` on any other primitive. */
  function Member(cfg: Config, key: string, prop: string): JsValue
    requires !Unreadable(cfg, key)
  {
    match cfg[key]
    case Plain(_) => Undefined
    case Record(fields) => if prop in fields then fields[prop] else Undefined
  }

  /** `config[key].active ? `${config[key].value} ` : ""`; `None` when it throws. */
  function EmojiText(cfg: Config, key: string): Option<string> {
    if Unreadable(cfg, key) then None
    else if Truthy(Member(cfg, key, "active")) then Some(ToText(Member(cfg, key, "value")) + " ")
    else Some("")
  }

  /** The text of the mark for a status; `None` when computing it throws. */
  function MarkText(cfg: Config, status: JsValue): Option<string> {
    if status == Str("private") then Some("🔒 ")
    else if status == Str("rate_limited") then Some("⏳ ")
    else if status == Bool(true) then EmojiText(cfg, "emoji_active")
    else if status == Bool(false) then EmojiText(cfg, "emoji_inactive")
    else Some("")
  }

  /** The status of `await isRepoActive(href)`: `None` when the message throws. */
  function StatusFor(lookup: string -> Lookup, href: string): Option<JsValue> {
    match lookup(href)
    case Threw => None
    case Returned(r) => Some(IsRepoActive(r))
  }

  /** The span a processed link gets; `None` when the lookup or the text throws. */
  function MarkFor(cfg: Config, lookup: string -> Lookup, href: string): (m: Option<Node>)
    ensures m.Some? ==> m.value.Span? && m.value.classes == {} && m.value.title == ""
    ensures m.Some? <==> StatusFor(lookup, href).Some? && MarkText(cfg, StatusFor(lookup, href).value).Some?
    ensures m.Some? ==> m.value.text == MarkText(cfg, StatusFor(lookup, href).value).value
    ensures m.Some? ==> m.value.color == Links.MarkColor(StatusFor(lookup, href).value)
  {
    match StatusFor(lookup, href)
    case None => None
    case Some(status) =>
      match MarkText(cfg, status)
      case None => None
      case Some(text) => Some(Span({}, text, Links.MarkColor(status), ""))
  }

  /** The private and rate-limited marks are fixed; true and false use their emoji
      setting when it is active and "" otherwise; any other status gets "". A setting
      that is missing, `undefined` or `null` throws. */
  lemma MarkTextRule(cfg: Config, status: JsValue)
    ensures status == Str("private") ==> MarkText(cfg, status) == Some("🔒 ")
    ensures status == Str("rate_limited") ==> MarkText(cfg, status) == Some("⏳ ")
    ensures status == Bool(true) && !Unreadable(cfg, "emoji_active") ==>
              MarkText(cfg, status) ==
              Some(if Truthy(Member(cfg, "emoji_active", "active"))
                   then ToText(Member(cfg, "emoji_active", "value")) + " " else "")
    ensures status == Bool(false) && !Unreadable(cfg, "emoji_inactive") ==>
              MarkText(cfg, status) ==
              Some(if Truthy(Member(cfg, "emoji_inactive", "active"))
                   then ToText(Member(cfg, "emoji_inactive", "value")) + " " else "")
    ensures MarkText(cfg, status).None? <==>
              (status == Bool(true) && Unreadable(cfg, "emoji_active"))
              || (status == Bool(false) && Unreadable(cfg, "emoji_inactive"))
    ensures !status.Bool? && status != Str("private") && status != Str("rate_limited") ==>
              MarkText(cfg, status) == Some("")
  {
  }

  /** With the plain-string default emojis the active and inactive marks are empty: a
      string has no `active` property. */
  lemma DefaultEmojisGiveEmptyText()
    ensures MarkText(LegacyMain.DefaultConfig, Bool(true)) == Some("")
    ensures MarkText(LegacyMain.DefaultConfig, Bool(false)) == Some("")
  {
    assert LegacyMain.DefaultConfig["emoji_active"] == LegacyMain.Plain(Str("✅"));
    assert LegacyMain.DefaultConfig["emoji_inactive"] == LegacyMain.Plain(Str("❌"));
  }

  // ---------------------------------------------------------------------------------
  // `markLinksInDocument`

  /** A link the loop still has to process: a repository URL without the flag. */
  predicate PendingWith(url: Option<Url>, flag: Option<string>) {
    RepoUrl.IsRepoUrl(url) && !(flag.Some? && flag.value != "")
  }

  predicate Pending(l: Link)
    reads l
  {
    PendingWith(l.url, l.repoChecked)
  }

  /** How far a pass over a document got: through every anchor, or up to the anchor at
      `at`, whose lookup or mark text threw and rejected the pass. */
  datatype Outcome = Completed | Aborted(at: nat)

  /** The anchors a pass finished. */
  function Done(links: seq<Link>, outcome: Outcome): seq<Link> {
    if outcome.Aborted? && outcome.at < |links| then links[..outcome.at] else links
  }

  /** The anchor a pass stopped at, flagged but left without a span. */
  function Stopped(links: seq<Link>, outcome: Outcome): Option<Link> {
    if outcome.Aborted? && outcome.at < |links| then Some(links[outcome.at]) else None
  }

  /** What a pass does to one anchor, given its flag and children before and after:
      the anchor it stopped at is flagged only; a finished anchor that was pending is
      flagged and gets its span as the new first child; every other anchor is left
      alone. */
  predicate Effect(cfg: Config, lookup: Link -> string -> Lookup, done: seq<Link>, stopped: Option<Link>,
                   l: Link, flag0: Option<string>, children0: seq<Node>,
                   flag: Option<string>, children: seq<Node>)
  {
    if stopped == Some(l) then
      flag == Some("true") && children == children0
    else if l in done && PendingWith(l.url, flag0) then
      flag == Some("true") && MarkFor(cfg, lookup(l), l.href).Some?
      && children == [MarkFor(cfg, lookup(l), l.href).value] + children0
    else
      flag == flag0 && children == children0
  }

  /** `markLinksInDocument(doc)` over the document's anchors, in document order. Each
      pending anchor is flagged before its status is asked for, then gets exactly one
      span, even one with empty text. When the lookup or the mark text throws, the pass
      stops there: that anchor keeps its flag and gets no span, and the anchors after it
      are not visited. Each lookup is awaited before the next anchor is visited, and an
      anchor is looked up at most once per pass, so `lookup(l)` stands for the answers
      the background gives while anchor `l` is processed; they may differ from anchor
      to anchor even for the same address. */
  method MarkLinksInDocument(links: seq<Link>, cfg: Config, lookup: Link -> string -> Lookup)
    returns (outcome: Outcome)
    modifies set l | l in links
    ensures outcome.Aborted? ==>
              outcome.at < |links| && links[outcome.at] !in links[..outcome.at]
              && old(Pending(links[outcome.at])) && MarkFor(cfg, lookup(links[outcome.at]), links[outcome.at].href).None?
    ensures forall l :: l in links ==>
              Effect(cfg, lookup, Done(links, outcome), Stopped(links, outcome), l,
                     old(l.repoChecked), old(l.children), l.repoChecked, l.children)
  {
    var i := 0;
    while i < |links|
      invariant 0 <= i <= |links|
      invariant forall l :: l in links[..i] ==> !Pending(l)
      invariant forall l :: l in links ==>
                  Effect(cfg, lookup, links[..i], None, l,
                         old(l.repoChecked), old(l.children), l.repoChecked, l.children)
    {
      var link := links[i];
      assert links[..i + 1] == links[..i] + [link];
      if RepoUrl.IsRepoUrl(link.url) && !link.Checked() {
        assert link !in links[..i];
        var marked := MarkAnchor(link, cfg, lookup(link));
        if !marked {
          outcome := Aborted(i);
          assert Done(links, outcome) == links[..i] && Stopped(links, outcome) == Some(link);
          return;
        }
      }
      i := i + 1;
    }
    assert links[..i] == links;
    outcome := Completed;
  }

  /** The loop's work on one pending anchor: the flag first, then the span as the new
      first child; `false` when the lookup or the mark text throws, which leaves the
      anchor flagged and without a span. */
  method MarkAnchor(link: Link, cfg: Config, lookup: string -> Lookup) returns (marked: bool)
    modifies link
    ensures link.repoChecked == Some("true")
    ensures marked <==> MarkFor(cfg, lookup, link.href).Some?
    ensures marked ==> link.children == [MarkFor(cfg, lookup, link.href).value] + old(link.children)
    ensures !marked ==> link.children == old(link.children)
  {
    link.repoChecked := Some("true");
    var mark := MarkFor(cfg, lookup, link.href);
    if mark.None? {
      return false;
    }
    link.children := [mark.value] + link.children;
    marked := true;
  }

  // ---------------------------------------------------------------------------------
  // `markRepoLinks`

  /** A document: its `ownerDocument` number and its anchors, in document order. */
  datatype Document = Document(id: nat, links: seq<Link>)

  /** An iframe as the loop finds it: reaching its document throws (a cross-origin
      frame), it has no document, or it has one. */
  datatype Frame = Blocked | NoDocument | Loaded(doc: Document)

  /** Every anchor of a document is owned by it. */
  predicate Owns(d: Document) {
    forall l :: l in d.links ==> l.owner == d.id
  }

  /** The documents of a page are distinct, and each owns its anchors; so no anchor
      belongs to two of them. */
  predicate SeparateDocuments(top: Document, frames: seq<Frame>) {
    && Owns(top)
    && (forall f :: 0 <= f < |frames| && frames[f].Loaded? ==> Owns(frames[f].doc) && frames[f].doc.id != top.id)
    && (forall f, g :: 0 <= f < g < |frames| && frames[f].Loaded? && frames[g].Loaded? ==>
          frames[f].doc.id != frames[g].doc.id)
  }

  /** The anchors of the frames that have a document. */
  function FrameLinks(frames: seq<Frame>): set<Link> {
    set f, l | 0 <= f < |frames| && frames[f].Loaded? && l in frames[f].doc.links :: l
  }

  /** `markRepoLinks()`: the top document first, then every frame in order. When the
      top document's pass throws, the whole call rejects and no frame is visited. A
      frame that cannot be reached or has no document is skipped, and a frame whose pass
      throws does not stop the frames after it: every frame with a document gets its
      own pass (`visited[f]`), with the same effect on its anchors as on the top
      document's. */
  method MarkRepoLinks(top: Document, frames: seq<Frame>, cfg: Config, lookup: Link -> string -> Lookup)
    returns (first: Outcome, visited: seq<Option<Outcome>>)
    requires SeparateDocuments(top, frames)
    modifies (set l | l in top.links), FrameLinks(frames)
    ensures forall l :: l in top.links ==>
              Effect(cfg, lookup, Done(top.links, first), Stopped(top.links, first), l,
                     old(l.repoChecked), old(l.children), l.repoChecked, l.children)
    ensures first.Aborted? ==>
              visited == []
              && forall f, l :: 0 <= f < |frames| && frames[f].Loaded? && l in frames[f].doc.links ==>
                   l.repoChecked == old(l.repoChecked) && l.children == old(l.children)
    ensures first.Completed? ==>
              |visited| == |frames|
              && (forall f :: 0 <= f < |frames| ==> (visited[f].Some? <==> frames[f].Loaded?))
              && forall f, l :: 0 <= f < |frames| && frames[f].Loaded? && l in frames[f].doc.links ==>
                   Effect(cfg, lookup, Done(frames[f].doc.links, visited[f].value),
                          Stopped(frames[f].doc.links, visited[f].value), l,
                          old(l.repoChecked), old(l.children), l.repoChecked, l.children)
  {
    first := MarkLinksInDocument(top.links, cfg, lookup);
    visited := [];
    if first.Aborted? {
      return;
    }
    var f := 0;
    while f < |frames|
      invariant 0 <= f <= |frames| && |visited| == f
      invariant forall g :: 0 <= g < f ==> (visited[g].Some? <==> frames[g].Loaded?)
      invariant forall l :: l in top.links ==>
                  Effect(cfg, lookup, Done(top.links, first), Stopped(top.links, first), l,
                         old(l.repoChecked), old(l.children), l.repoChecked, l.children)
      invariant forall g, l :: 0 <= g < f && frames[g].Loaded? && l in frames[g].doc.links ==>
                  Effect(cfg, lookup, Done(frames[g].doc.links, visited[g].value),
                         Stopped(frames[g].doc.links, visited[g].value), l,
                         old(l.repoChecked), old(l.children), l.repoChecked, l.children)
      invariant forall g, l :: f <= g < |frames| && frames[g].Loaded? && l in frames[g].doc.links ==>
                  l.repoChecked == old(l.repoChecked) && l.children == old(l.children)
    {
      var v := MarkFrame(top, frames, f, cfg, lookup);
      visited := visited + [v];
      f := f + 1;
    }
  }

  /** One turn of the frame loop: the frame's own pass when it has a document, and
      nothing when it has none. The anchors of other documents are left alone. */
  method MarkFrame(top: Document, frames: seq<Frame>, f: nat, cfg: Config, lookup: Link -> string -> Lookup)
    returns (v: Option<Outcome>)
    requires SeparateDocuments(top, frames) && f < |frames|
    modifies if frames[f].Loaded? then set l | l in frames[f].doc.links else {}
    ensures v.Some? <==> frames[f].Loaded?
    ensures frames[f].Loaded? ==>
              forall l :: l in frames[f].doc.links ==>
                Effect(cfg, lookup, Done(frames[f].doc.links, v.value), Stopped(frames[f].doc.links, v.value), l,
                       old(l.repoChecked), old(l.children), l.repoChecked, l.children)
    ensures forall l :: l in top.links ==> l.repoChecked == old(l.repoChecked) && l.children == old(l.children)
    ensures forall g, l :: 0 <= g < |frames| && g != f && frames[g].Loaded? && l in frames[g].doc.links ==>
              l.repoChecked == old(l.repoChecked) && l.children == old(l.children)
  {
    if frames[f].Loaded? {
      var d := frames[f].doc;
      assert forall l :: l in d.links ==> l.owner == d.id;
      var outcome := MarkLinksInDocument(d.links, cfg, lookup);
      v := Some(outcome);
    } else {
      v := None;
    }
  }
}
