/** The slice of the page the link annotators read and change: anchor elements, their
    `data-repo-checked` flag and their child nodes. */
module Dom {
  import opened Js
  import opened UrlPath

  /** A child node of a link: a `span` (its classes, text, colour and title) or anything else. */
  datatype Node = Span(classes: set<string>, text: string, color: string, title: string) | Other

  /** An anchor element. Its address never changes while the annotators run; its flag and
      its children do. */
  class Link {
    /** `el.href`: the resolved address, "" when the anchor has none. */
    const href: string
    /** `new URL(el.href)`; `None` when the constructor throws. */
    const url: Option<Url>
    /** `el.ownerDocument`, as a number that tells the documents of a page apart. */
    const owner: nat
    /** `el.dataset.repoChecked`; `None` when the attribute is absent. */
    var repoChecked: Option<string>
    /** The child nodes, in document order. */
    var children: seq<Node>

    constructor (href: string, url: Option<Url>, owner: nat, children: seq<Node>)
      ensures this.href == href && this.url == url && this.owner == owner
      ensures this.children == children && repoChecked == None
    {
      this.href := href;
      this.url := url;
      this.owner := owner;
      this.children := children;
      repoChecked := None;
    }

    /** `!!link.dataset.repoChecked`: the flag is present and not empty. */
    predicate Checked()
      reads this
    {
      repoChecked.Some? && repoChecked.value != ""
    }
  }
}
