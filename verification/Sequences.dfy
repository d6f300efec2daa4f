/** The few facts about sequences that several modules need. */
module Sequences {
  ghost predicate Distinct<T>(s: seq<T>) { forall i, j :: 0 <= i < j < |s| ==> s[i] != s[j] }

  lemma Regroup<T>(a: seq<T>, b: seq<T>, c: seq<T>)
    ensures a + (b + c) == (a + b) + c
  {
  }

  lemma RegroupFour<T>(a: seq<T>, b: seq<T>, c: seq<T>, d: seq<T>)
    ensures ((a + b) + c) + d == a + (b + (c + d))
  {
  }

  lemma PrefixTrans<T>(a: seq<T>, b: seq<T>, c: seq<T>)
    requires a <= b <= c
    ensures a <= c
  {
  }

  /** Two parts that stand one after the other. */
  lemma SplitSlice<T>(s: seq<T>, i: nat, a: seq<T>, b: seq<T>)
    requires i + |a| + |b| <= |s| && s[i..i + |a| + |b|] == a + b
    ensures s[i..i + |a|] == a && s[i + |a|..i + |a| + |b|] == b
  {
    var both := s[i..i + |a| + |b|];
    assert both[..|a|] == a && both[|a|..] == b;
    assert s[i..i + |a|] == both[..|a|] && s[i + |a|..i + |a| + |b|] == both[|a|..];
  }

  /** Everything but one element. */
  function Without<T>(s: seq<T>, k: nat): seq<T>
    requires k < |s|
  {
    s[..k] + s[k + 1..]
  }

  lemma WithoutDistinct<T>(s: seq<T>, k: nat)
    requires Distinct(s) && k < |s|
    ensures Distinct(Without(s, k)) && s[k] !in Without(s, k) && forall x <- Without(s, k) :: x in s
  {
    forall i, j | 0 <= i < j < |s| - 1 ensures Without(s, k)[i] != Without(s, k)[j] {
      assert Without(s, k)[i] == s[if i < k then i else i + 1];
      assert Without(s, k)[j] == s[if j < k then j else j + 1];
    }
  }
}
