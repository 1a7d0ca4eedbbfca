/** A parsed URL as the extension reads it, and the path segments every URL rule
    counts: `pathname.split("/").filter(Boolean)`. */
module UrlPath {

  /** The parts of a `URL` object the extension reads. */
  datatype Url = Url(hostname: string, pathname: string, search: string, hash: string)

  /** `s.split("/")`: the pieces between slashes, empty pieces included. */
  function Split(s: string): (r: seq<string>)
    ensures |r| >= 1
  {
    if s == [] then [""]
    else
      var rest := Split(s[1..]);
      if s[0] == '/' then [""] + rest
      else [[s[0]] + rest[0]] + rest[1..]
  }

  /** `pieces.join("/")`. */
  function Join(pieces: seq<string>): string {
    if pieces == [] then ""
    else if |pieces| == 1 then pieces[0]
    else pieces[0] + "/" + Join(pieces[1..])
  }

  /** `filter(Boolean)` on strings: drops the empty ones, keeps the order. */
  function NonEmpty(xs: seq<string>): (r: seq<string>)
    ensures |r| <= |xs|
  {
    if xs == [] then [] else (if xs[0] == "" then [] else [xs[0]]) + NonEmpty(xs[1..])
  }

  /** The path segments of a pathname. */
  function Segments(pathname: string): seq<string> {
    NonEmpty(Split(pathname))
  }

  /** No piece of a split contains a slash. */
  lemma {:induction false} SplitPieces(s: string)
    ensures forall i :: 0 <= i < |Split(s)| ==> '/' !in Split(s)[i]
  {
    if s != [] {
      SplitPieces(s[1..]);
    }
  }

  /** `filter(Boolean)` keeps only non-empty pieces of the input. */
  lemma {:induction false} NonEmptyPieces(xs: seq<string>)
    ensures forall i :: 0 <= i < |NonEmpty(xs)| ==> NonEmpty(xs)[i] != "" && NonEmpty(xs)[i] in xs
  {
    if xs != [] {
      NonEmptyPieces(xs[1..]);
    }
  }

  /** Every segment is non-empty and free of slashes. */
  lemma SegmentsArePieces(pathname: string)
    ensures forall i :: 0 <= i < |Segments(pathname)| ==>
              Segments(pathname)[i] != "" && '/' !in Segments(pathname)[i]
  {
    SplitPieces(pathname);
    NonEmptyPieces(Split(pathname));
  }

  /** The pathname `/x0/x1/...` that spells out a list of segments. */
  function PathOf(parts: seq<string>): string {
    if parts == [] then "" else "/" + parts[0] + PathOf(parts[1..])
  }

  /** Splitting then joining gives back the string. */
  lemma {:induction false} JoinSplit(s: string)
    ensures Join(Split(s)) == s
  {
    if s != [] {
      var rest := Split(s[1..]);
      JoinSplit(s[1..]);
      if s[0] == '/' {
        JoinCons("", rest);
        assert s == "" + "/" + Join(rest);
      } else {
        var first := [s[0]] + rest[0];
        if |rest| == 1 {
          assert s == first;
        } else {
          JoinCons(first, rest[1..]);
          JoinCons(rest[0], rest[1..]);
          assert [rest[0]] + rest[1..] == rest;
          assert s == [s[0]] + Join(rest);
        }
      }
    }
  }

  /** Joining a piece in front of at least one more inserts a slash after it. */
  lemma JoinCons(x: string, rest: seq<string>)
    requires rest != []
    ensures Join([x] + rest) == x + "/" + Join(rest)
  {
    assert ([x] + rest)[1..] == rest;
  }

  /** A slash splits a string into the pieces of its two sides. */
  lemma {:induction false} SplitAtSlash(a: string, b: string)
    ensures Split(a + "/" + b) == Split(a) + Split(b)
  {
    if a == [] {
      assert a + "/" + b == "/" + b;
      assert ("/" + b)[1..] == b;
    } else {
      var s := a + "/" + b;
      assert s[0] == a[0] && s[1..] == a[1..] + "/" + b;
      SplitAtSlash(a[1..], b);
    }
  }

  lemma {:induction false} NonEmptyConcat(xs: seq<string>, ys: seq<string>)
    ensures NonEmpty(xs + ys) == NonEmpty(xs) + NonEmpty(ys)
  {
    if xs != [] {
      assert (xs + ys)[1..] == xs[1..] + ys;
      NonEmptyConcat(xs[1..], ys);
    } else {
      assert xs + ys == ys;
    }
  }

  /** The segments around a slash are the segments of the two sides. */
  lemma SegmentsAtSlash(a: string, b: string)
    ensures Segments(a + "/" + b) == Segments(a) + Segments(b)
  {
    SplitAtSlash(a, b);
    NonEmptyConcat(Split(a), Split(b));
  }

  /** A trailing slash does not change the segments. */
  lemma TrailingSlash(p: string)
    ensures Segments(p + "/") == Segments(p)
  {
    SegmentsAtSlash(p, "");
    assert p + "/" + "" == p + "/";
  }

  /** A doubled slash counts as a single one. */
  lemma DoubledSlash(a: string, b: string)
    ensures Segments(a + "//" + b) == Segments(a + "/" + b)
  {
    assert a + "//" + b == (a + "/") + "/" + b;
    SegmentsAtSlash(a + "/", b);
    TrailingSlash(a);
    SegmentsAtSlash(a, b);
  }

  /** A non-empty string without slashes is a single segment. */
  lemma {:induction false} SegmentsOfWord(x: string)
    requires x != "" && '/' !in x
    ensures Segments(x) == [x]
  {
    SplitOfWord(x);
  }

  lemma {:induction false} SplitOfWord(x: string)
    requires '/' !in x
    ensures Split(x) == [x]
  {
    if x != [] {
      SplitOfWord(x[1..]);
      assert [x[0]] + x[1..] == x;
    }
  }

  /** A leading slash adds no segment. */
  lemma LeadingSlash(p: string)
    ensures Segments("/" + p) == Segments(p)
  {
    assert "/" + p == "" + "/" + p;
    SegmentsAtSlash("", p);
    assert Segments("") == [];
  }

  /** A slash and a word in front of a path add that word as its first segment. */
  lemma SegmentsCons(x: string, p: string)
    requires x != "" && '/' !in x
    requires p == "" || p[0] == '/'
    ensures Segments("/" + x + p) == [x] + Segments(p)
  {
    SegmentsOfWord(x);
    if p == "" {
      assert "/" + x + p == "/" + x;
      LeadingSlash(x);
    } else {
      var q := p[1..];
      assert p == "/" + q;
      assert "/" + x + p == "/" + (x + "/" + q);
      LeadingSlash(x + "/" + q);
      SegmentsAtSlash(x, q);
      LeadingSlash(q);
    }
  }

  /** The segments of `/x0/x1/...` are `x0, x1, ...` again. */
  lemma {:induction false} SegmentsOfPath(parts: seq<string>)
    requires forall i :: 0 <= i < |parts| ==> parts[i] != "" && '/' !in parts[i]
    ensures Segments(PathOf(parts)) == parts
  {
    if parts == [] {
      assert Segments("") == [];
    } else {
      var x, p := parts[0], PathOf(parts[1..]);
      SegmentsOfPath(parts[1..]);
      assert p == "" || p[0] == '/';
      SegmentsCons(x, p);
      assert PathOf(parts) == "/" + x + p;
      assert parts == [x] + parts[1..];
    }
  }
}
