/** The emoji list of the options page: removal of entries whose character repeats, and
    the limited, order-preserving search over the list. */
module Emoji {
  import opened Js
  import opened Seqs

  /** An entry of the list: the emoji (its code points) and its space-separated search words,
      "" for the generated entries. */
  datatype Item = Item(ch: string, name: string)

  /** Some entry of `s` has character `c`. */
  predicate HasChar(s: seq<Item>, c: string) {
    exists k :: 0 <= k < |s| && s[k].ch == c
  }

  /** What `uniqByChar` returns: the entries whose character did not occur earlier. */
  function Unique(arr: seq<Item>): seq<Item>
    decreases |arr|
  {
    if arr == [] then []
    else
      var u := Unique(arr[..|arr| - 1]);
      if HasChar(u, arr[|arr| - 1].ch) then u else u + [arr[|arr| - 1]]
  }

  /** `uniqByChar(arr)`: one pass with a set of the characters seen so far. */
  method UniqByChar(arr: seq<Item>) returns (out: seq<Item>)
    ensures out == Unique(arr)
  {
    var seen: set<string> := {};
    out := [];
    var i := 0;
    while i < |arr|
      invariant 0 <= i <= |arr|
      invariant out == Unique(arr[..i])
      invariant forall c :: c in seen <==> HasChar(out, c)
    {
      var it := arr[i];
      assert arr[..i + 1][..i] == arr[..i];
      if it.ch !in seen {
        seen := seen + {it.ch};
        out := out + [it];
        assert out[|out| - 1] == it;
        forall c | HasChar(out, c)
          ensures c in seen
        {
          var k :| 0 <= k < |out| && out[k].ch == c;
          if k < |out| - 1 {
            assert out[..|out| - 1][k] == out[k];
          }
        }
        forall c | c in seen
          ensures HasChar(out, c)
        {
          if c != it.ch {
            var k :| 0 <= k < |out| - 1 && out[..|out| - 1][k].ch == c;
            assert out[k] == out[..|out| - 1][k];
          }
        }
      }
      i := i + 1;
    }
    assert arr[..i] == arr;
  }

  /** No two entries of the result share a character. */
  lemma {:induction false} UniqueDistinct(arr: seq<Item>)
    ensures forall i, j :: 0 <= i < j < |Unique(arr)| ==> Unique(arr)[i].ch != Unique(arr)[j].ch
    decreases |arr|
  {
    if arr != [] {
      UniqueDistinct(arr[..|arr| - 1]);
    }
  }

  /** Every character of the input has an entry in the result. */
  lemma {:induction false} UniqueCovers(arr: seq<Item>)
    ensures forall k :: 0 <= k < |arr| ==> HasChar(Unique(arr), arr[k].ch)
    decreases |arr|
  {
    if arr != [] {
      var init := arr[..|arr| - 1];
      UniqueCovers(init);
      var u := Unique(init);
      forall k | 0 <= k < |arr|
        ensures HasChar(Unique(arr), arr[k].ch)
      {
        if k < |arr| - 1 {
          assert arr[k] == init[k];
          var m :| 0 <= m < |u| && u[m].ch == arr[k].ch;
          assert (u + [arr[|arr| - 1]])[m] == u[m];
        } else if !HasChar(u, arr[k].ch) {
          assert (u + [arr[k]])[|u|] == arr[k];
        }
      }
    }
  }

  /** The first entry with a given character is the one kept. */
  lemma {:induction false} UniqueKeepsFirst(arr: seq<Item>, j: nat)
    requires j < |arr|
    requires forall i :: 0 <= i < j ==> arr[i].ch != arr[j].ch
    ensures arr[j] in Unique(arr)
    decreases |arr|
  {
    var init := arr[..|arr| - 1];
    var u := Unique(init);
    if j < |arr| - 1 {
      UniqueKeepsFirst(init, j);
    } else {
      UniqueSubsequence(init);
      SubsequenceElements(u, init);
      forall m | 0 <= m < |u|
        ensures u[m].ch != arr[j].ch
      {
        assert u[m] in init;
        var i :| 0 <= i < |init| && init[i] == u[m];
        assert arr[i] == init[i];
      }
    }
  }

  /** The result keeps entries in input order: it is a subsequence of the input. */
  lemma {:induction false} UniqueSubsequence(arr: seq<Item>)
    ensures IsSubsequence(Unique(arr), arr)
    decreases |arr|
  {
    if arr == [] {
    } else {
      var init := arr[..|arr| - 1];
      UniqueSubsequence(init);
      assert arr == init + [arr[|arr| - 1]];
      if HasChar(Unique(init), arr[|arr| - 1].ch) {
        SubsequenceSkip(Unique(init), init, arr[|arr| - 1]);
      } else {
        SubsequenceTake(Unique(init), init, arr[|arr| - 1]);
      }
    }
  }

  /** A second lock entry, further down the list, is dropped in favour of the first. */
  lemma DuplicateLockDropped()
    ensures Unique([Item("🔒", "lock"), Item("🔓", "unlock public"), Item("🔒", "lock private secure")])
            == [Item("🔒", "lock"), Item("🔓", "unlock public")]
  {
    var a := [Item("🔒", "lock"), Item("🔓", "unlock public"), Item("🔒", "lock private secure")];
    assert a[..1][..0] == [];
    assert a[..2][..1] == a[..1];
    assert a[..3] == a && a[..2] == a[..2];
    assert Unique(a[..1]) == [a[0]];
    assert !HasChar([a[0]], a[1].ch);
    assert Unique(a[..2]) == [a[0], a[1]];
    assert [a[0], a[1]][0].ch == a[2].ch;
  }

  /** The `limit` of `search` when the caller leaves it out. */
  const DefaultLimit := 250

  /** The end index `list.slice(0, limit)` stops at: counted back from the end for a
      negative limit, cut to the length for a large one. */
  function SliceEnd(n: nat, limit: int): (e: nat)
    ensures e <= n
    ensures 0 <= limit ==> e == if limit < n then limit else n
    ensures limit < 0 ==> e == if n + limit < 0 then 0 else n + limit
  {
    if limit < 0 then (if n + limit < 0 then 0 else n + limit)
    else if limit < n then limit
    else n
  }

  /** The query with a leading "u+" removed. */
  function HexPart(q: string): (h: string)
    ensures q == h || q == "u+" + h
  {
    if |q| >= 2 && q[..2] == "u+" then q[2..] else q
  }

  /** A hexadecimal digit in either case. */
  predicate IsHexDigitAnyCase(c: char) {
    '0' <= c <= '9' || 'a' <= c <= 'f' || 'A' <= c <= 'F'
  }

  /** Three to six hexadecimal digits and nothing else. */
  predicate IsHexQuery(h: string) {
    3 <= |h| <= 6 && forall i :: 0 <= i < |h| ==> IsHexDigitAnyCase(h[i])
  }

  /** Some code point of `s`, written by `toString(16)`, equals `h`. */
  predicate HasCodePoint(s: string, h: string) {
    exists k :: 0 <= k < |s| && Hex(s[k] as nat) == h
  }

  /** An entry is a hit for `query`: its words contain the normalized query, its character is
      the raw query, or the query is a code point in hexadecimal that the character holds. */
  predicate Matches(item: Item, query: string) {
    var q := ToLower(Trim(query));
    (item.name != "" && Contains(item.name, q))
    || item.ch == query
    || (IsHexQuery(HexPart(q)) && HasCodePoint(item.ch, HexPart(q)))
  }

  /** `Matches` for one query, as the test a filter applies. */
  function MatchesQuery(query: string): Item -> bool {
    item => Matches(item, query)
  }

  /** The hits of `list`, in list order. */
  function Hits(list: seq<Item>, query: string): seq<Item> {
    Filter(list, MatchesQuery(query))
  }

  /** The first `limit` entries of `s`; none for a limit of zero or less. */
  function Take(s: seq<Item>, limit: int): (r: seq<Item>)
    ensures |r| <= |s| && r == s[..|r|]
    ensures |r| == if limit <= 0 then 0 else if limit < |s| then limit else |s|
  {
    if limit <= 0 then [] else if limit < |s| then s[..limit] else s
  }

  /** What `search(query, limit)` returns over `list`. */
  function Results(list: seq<Item>, query: string, limit: int): seq<Item> {
    if ToLower(Trim(query)) == "" then list[..SliceEnd(|list|, limit)]
    else Take(Hits(list, query), limit)
  }

  /** `search(query, limit)`: the `list.slice` shortcut for a blank query, otherwise a scan
      that stops once `limit` hits are collected. */
  method Search(list: seq<Item>, query: string, limit: Option<int>) returns (results: seq<Item>)
    ensures results == Results(list, query, if limit.Some? then limit.value else DefaultLimit)
  {
    var lim := if limit.Some? then limit.value else DefaultLimit;
    var q := ToLower(Trim(query));
    if q == "" {
      return list[..SliceEnd(|list|, lim)];
    }
    var hex := HexPart(q);
    var isHex := IsHexQuery(hex);
    ghost var keep := MatchesQuery(query);
    results := [];
    var i := 0;
    while i < |list|
      invariant 0 <= i <= |list|
      invariant results == Filter(list[..i], keep)
      invariant |results| <= if lim <= 0 then 0 else lim
    {
      if |results| >= lim {
        break;
      }
      var item := list[i];
      var hit := IsHit(item, query, q, hex, isHex);
      FilterStep(list, i, keep);
      if hit {
        results := results + [item];
      }
      i := i + 1;
    }
    FilterLimit(list, keep, lim, i, results);
  }

  /** Where the scan stops: at the end of the list, or once `limit` hits are in. */
  lemma FilterLimit(list: seq<Item>, keep: Item -> bool, lim: int, i: nat, results: seq<Item>)
    requires i <= |list| && results == Filter(list[..i], keep)
    requires |results| <= if lim <= 0 then 0 else lim
    requires i == |list| || |results| >= lim
    ensures results == Take(Filter(list, keep), lim)
  {
    FilterPrefix(list, i, keep);
    if i == |list| {
      assert list[..i] == list;
    }
  }

  /** The three tests of the loop body, in their order. */
  method IsHit(item: Item, query: string, q: string, hex: string, isHex: bool) returns (hit: bool)
    requires q == ToLower(Trim(query)) && hex == HexPart(q) && isHex == IsHexQuery(hex)
    ensures hit == MatchesQuery(query)(item)
  {
    if item.name != "" && Contains(item.name, q) {
      hit := true;
    } else if item.ch == query {
      hit := true;
    } else if isHex && HasCodePoint(item.ch, hex) {
      hit := true;
    } else {
      hit := false;
    }
  }

  /** The result is drawn from the list in list order. */
  lemma ResultsSubsequence(list: seq<Item>, query: string, limit: int)
    ensures IsSubsequence(Results(list, query, limit), list)
  {
    if ToLower(Trim(query)) == "" {
      SelfSubsequence(list);
      PrefixSubsequence(list, list, SliceEnd(|list|, limit));
    } else {
      FilterSubsequence(list, MatchesQuery(query));
      PrefixSubsequence(Hits(list, query), list, |Take(Hits(list, query), limit)|);
    }
  }

  /** With a limit of zero or more, no more than `limit` entries come back. */
  lemma ResultsBound(list: seq<Item>, query: string, limit: int)
    requires 0 <= limit
    ensures |Results(list, query, limit)| <= limit
  {
  }

  /** A negative limit counts back from the end for a blank query, but stops a real search
      before its first entry. */
  lemma NegativeLimit(list: seq<Item>, query: string, limit: int)
    requires limit < 0
    ensures ToLower(Trim(query)) == "" ==>
              Results(list, query, limit) == list[..if |list| + limit < 0 then 0 else |list| + limit]
    ensures ToLower(Trim(query)) != "" ==> Results(list, query, limit) == []
  {
  }

  /** A blank query, white space only, returns the first `limit` entries. */
  lemma BlankQueryLeadingEntries(list: seq<Item>, query: string, limit: int)
    requires forall i :: 0 <= i < |query| ==> IsJsWhitespace(query[i])
    requires 0 <= limit
    ensures Results(list, query, limit) == list[..if limit < |list| then limit else |list|]
  {
  }

  /** A non-blank query returns only matching entries, and, while fewer than `limit` entries
      match, every one of them. */
  lemma QueryHits(list: seq<Item>, query: string, limit: int)
    requires ToLower(Trim(query)) != ""
    ensures forall x :: x in Results(list, query, limit) ==> x in list && Matches(x, query)
    ensures |Hits(list, query)| <= limit ==>
              forall x :: x in list && Matches(x, query) ==> x in Results(list, query, limit)
  {
    FilterElements(list, MatchesQuery(query));
    var hits := Hits(list, query);
    var r := Results(list, query, limit);
    forall x | x in r
      ensures x in list && Matches(x, query)
    {
      var k :| 0 <= k < |r| && r[k] == x;
      assert hits[k] == x;
      assert MatchesQuery(query)(x);
    }
  }

  /** A match by code point means the character holds the code point the digits denote. */
  lemma CodePointMeaning(s: string, h: string)
    requires HasCodePoint(s, h)
    ensures exists k :: 0 <= k < |s| && s[k] as nat == HexValue(h)
  {
    var k :| 0 <= k < |s| && Hex(s[k] as nat) == h;
    HexRoundTrip(s[k] as nat);
  }

  /** A query of "U+" and a code point, in capitals, finds the emoji. */
  lemma HexQueryFindsCheckMark()
    ensures Matches(Item("✅", ""), "U+2705")
  {
    var query := "U+2705";
    TrimStartNoop(query);
    TrimEndNoop(query);
    assert Trim(query) == query;
    UpperU(query);
    var q := ToLower(query);
    assert HexPart(q) == "2705";
    HexOfCheckMark();
    assert HasCodePoint("✅", "2705") by {
      assert "✅"[0] as nat == 0x2705;
    }
  }

  lemma UpperU(query: string)
    requires query == "U+2705"
    ensures ToLower(query) == "u+2705"
  {
    var r := ToLower(query);
    assert r[0] == 'u';
    assert forall i :: 1 <= i < 6 ==> r[i] == query[i];
  }

  lemma HexOfCheckMark()
    ensures Hex(0x2705) == "2705"
  {
    assert Hex(2) == "2";
    assert Hex(39) == Hex(2) + "7";
    assert Hex(624) == Hex(39) + "0";
    assert Hex(9989) == Hex(624) + "5";
  }
}
