/** Order-preserving selection from a sequence, used by the link grouping and the
    emoji list utilities. */
module Seqs {
  /** `a` is `b` with some elements left out, the rest in their original order. */
  predicate IsSubsequence<T(==)>(a: seq<T>, b: seq<T>)
    decreases |b|
  {
    if b == [] then a == []
    else IsSubsequence(a, b[..|b| - 1])
         || (a != [] && a[|a| - 1] == b[|b| - 1] && IsSubsequence(a[..|a| - 1], b[..|b| - 1]))
  }

  /** Leaving everything out gives a subsequence. */
  lemma {:induction false} EmptySubsequence<T>(b: seq<T>)
    ensures IsSubsequence([], b)
    decreases |b|
  {
    if b != [] {
      EmptySubsequence(b[..|b| - 1]);
    }
  }

  /** Appending an element to the longer sequence only keeps it a subsequence. */
  lemma SubsequenceSkip<T>(a: seq<T>, b: seq<T>, x: T)
    requires IsSubsequence(a, b)
    ensures IsSubsequence(a, b + [x])
  {
    assert (b + [x])[..|b|] == b;
  }

  /** Appending the same element to both keeps the relation. */
  lemma SubsequenceTake<T>(a: seq<T>, b: seq<T>, x: T)
    requires IsSubsequence(a, b)
    ensures IsSubsequence(a + [x], b + [x])
  {
    assert (b + [x])[..|b|] == b;
    assert (a + [x])[..|a|] == a;
  }

  /** Every element of a subsequence is an element of the sequence, and it is no longer. */
  lemma {:induction false} SubsequenceElements<T>(a: seq<T>, b: seq<T>)
    requires IsSubsequence(a, b)
    ensures |a| <= |b|
    ensures forall x :: x in a ==> x in b
    decreases |b|
  {
    if b != [] {
      var b' := b[..|b| - 1];
      assert b == b' + [b[|b| - 1]];
      if IsSubsequence(a, b') {
        SubsequenceElements(a, b');
      } else {
        var a' := a[..|a| - 1];
        SubsequenceElements(a', b');
        assert a == a' + [a[|a| - 1]];
      }
    }
  }

  /** The elements of `s` that `keep` accepts, in their original order. */
  function Filter<T>(s: seq<T>, keep: T -> bool): seq<T>
    decreases |s|
  {
    if s == [] then []
    else Filter(s[..|s| - 1], keep) + (if keep(s[|s| - 1]) then [s[|s| - 1]] else [])
  }

  /** One more element adds itself to the filtered prefix exactly when it is accepted. */
  lemma FilterStep<T>(s: seq<T>, i: nat, keep: T -> bool)
    requires i < |s|
    ensures Filter(s[..i + 1], keep) == Filter(s[..i], keep) + (if keep(s[i]) then [s[i]] else [])
  {
    assert s[..i + 1][..i] == s[..i];
  }

  /** The filtered prefix comes first in the filtered whole. */
  lemma {:induction false} FilterPrefix<T>(s: seq<T>, i: nat, keep: T -> bool)
    requires i <= |s|
    ensures |Filter(s[..i], keep)| <= |Filter(s, keep)|
    ensures Filter(s, keep)[..|Filter(s[..i], keep)|] == Filter(s[..i], keep)
    decreases |s|
  {
    if i < |s| {
      var init := s[..|s| - 1];
      assert init[..i] == s[..i];
      FilterPrefix(init, i, keep);
    } else {
      assert s[..i] == s;
    }
  }

  /** The filter keeps exactly the accepted elements. */
  lemma {:induction false} FilterElements<T>(s: seq<T>, keep: T -> bool)
    ensures forall x :: x in Filter(s, keep) <==> x in s && keep(x)
    decreases |s|
  {
    if s != [] {
      var init := s[..|s| - 1];
      FilterElements(init, keep);
      assert s == init + [s[|s| - 1]];
    }
  }

  /** The filter's result is a subsequence of its input. */
  lemma {:induction false} FilterSubsequence<T>(s: seq<T>, keep: T -> bool)
    ensures IsSubsequence(Filter(s, keep), s)
    decreases |s|
  {
    if s != [] {
      var init := s[..|s| - 1];
      var last := s[|s| - 1];
      FilterSubsequence(init, keep);
      assert s == init + [last];
      if keep(last) {
        SubsequenceTake(Filter(init, keep), init, last);
      } else {
        assert Filter(s, keep) == Filter(init, keep);
        SubsequenceSkip(Filter(init, keep), init, last);
        assert IsSubsequence(Filter(init, keep), init + [last]);
      }
    }
  }

  /** Every sequence is a subsequence of itself. */
  lemma {:induction false} SelfSubsequence<T>(s: seq<T>)
    ensures IsSubsequence(s, s)
    decreases |s|
  {
    if s != [] {
      var init := s[..|s| - 1];
      SelfSubsequence(init);
      assert s == init + [s[|s| - 1]];
      SubsequenceTake(init, init, s[|s| - 1]);
    }
  }

  /** A prefix of a subsequence is again a subsequence. */
  lemma {:induction false} PrefixSubsequence<T>(a: seq<T>, b: seq<T>, k: nat)
    requires IsSubsequence(a, b) && k <= |a|
    ensures IsSubsequence(a[..k], b)
    decreases |b|
  {
    if b != [] {
      var b' := b[..|b| - 1];
      assert b == b' + [b[|b| - 1]];
      if k == |a| {
        assert a[..k] == a;
      } else if IsSubsequence(a, b') {
        PrefixSubsequence(a, b', k);
        SubsequenceSkip(a[..k], b', b[|b| - 1]);
      } else {
        var a' := a[..|a| - 1];
        assert a'[..k] == a[..k];
        PrefixSubsequence(a', b', k);
        SubsequenceSkip(a[..k], b', b[|b| - 1]);
      }
    }
  }
}
