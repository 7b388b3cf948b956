/** Value-level facts about the two list operations the manager uses on its
    arrays: removing every occurrence of some elements (`TArray::Remove`) and
    keeping a sequence free of duplicates (`TArray::Contains` guards). */
module Sequences {

  /** No element occurs twice. */
  predicate NoDuplicates<T(==)>(s: seq<T>) {
    forall x | x in s :: multiset(s)[x] <= 1
  }

  /** `s` with every occurrence of every element of `d` removed, the order of
      the remaining elements kept. */
  function Without<T(==)>(s: seq<T>, d: set<T>): (r: seq<T>)
    ensures forall x | x in r :: x in s && x !in d
    ensures forall x | x in s && x !in d :: x in r
    ensures |r| <= |s|
  {
    if s == [] then []
    else
      var init, last := s[..|s| - 1], s[|s| - 1];
      assert s == init + [last];
      Without(init, d) + (if last in d then [] else [last])
  }

  /** `r` can be obtained from `s` by deleting elements. */
  predicate IsSubsequence<T(==)>(r: seq<T>, s: seq<T>)
    decreases |s|
  {
    r == [] ||
    (s != [] &&
     ((r[|r| - 1] == s[|s| - 1] && IsSubsequence(r[..|r| - 1], s[..|s| - 1])) ||
      IsSubsequence(r, s[..|s| - 1])))
  }

  lemma DistinctAt<T>(s: seq<T>, i: nat, j: nat)
    requires NoDuplicates(s)
    requires i < j < |s|
    ensures s[i] != s[j]
  {
    var x := s[j];
    assert s == s[..j] + s[j..];
    assert multiset(s)[x] == multiset(s[..j])[x] + multiset(s[j..])[x];
    assert x in multiset(s[j..]);
    assert x in s;
    assert multiset(s[..j])[x] == 0;
    assert s[..j][i] == s[i];
  }

  /** Distinct positions of a duplicate-free sequence hold distinct elements. */
  lemma DistinctIndices<T>(s: seq<T>)
    requires NoDuplicates(s)
    ensures forall i, j | 0 <= i < |s| && 0 <= j < |s| && i != j :: s[i] != s[j]
  {
    forall i, j | 0 <= i < |s| && 0 <= j < |s| && i != j ensures s[i] != s[j] {
      if i < j {
        DistinctAt(s, i, j);
      } else {
        DistinctAt(s, j, i);
      }
    }
  }

  lemma {:induction false} WithoutNoDuplicates<T>(s: seq<T>, d: set<T>)
    requires NoDuplicates(s)
    ensures NoDuplicates(Without(s, d))
  {
    if s != [] {
      var init, last := s[..|s| - 1], s[|s| - 1];
      assert s == init + [last];
      assert multiset(s) == multiset(init) + multiset{last};
      assert NoDuplicates(init) by {
        forall x | x in init ensures multiset(init)[x] <= 1 {
          assert x in s;
        }
      }
      WithoutNoDuplicates(init, d);
      var w := Without(init, d);
      if last !in d {
        assert last in s;
        assert multiset(s)[last] == multiset(init)[last] + 1;
        assert last !in init;
        assert last !in w;
        assert multiset(w + [last]) == multiset(w) + multiset{last};
      }
    }
  }

  /** Removing elements that do not occur changes nothing. */
  lemma {:induction false} WithoutAbsent<T>(s: seq<T>, d: set<T>)
    requires forall x :: x in s ==> x !in d
    ensures Without(s, d) == s
  {
    if s != [] {
      var init := s[..|s| - 1];
      assert forall x :: x in init ==> x in s;
      WithoutAbsent(init, d);
      assert s == init + [s[|s| - 1]];
    }
  }

  /** Removal distributes over concatenation. */
  lemma {:induction false} WithoutConcat<T>(a: seq<T>, b: seq<T>, d: set<T>)
    ensures Without(a + b, d) == Without(a, d) + Without(b, d)
    decreases |b|
  {
    if b == [] {
      assert a + b == a;
    } else {
      var init, last := b[..|b| - 1], b[|b| - 1];
      var tail := if last in d then [] else [last];
      assert (a + b)[..|a + b| - 1] == a + init && (a + b)[|a + b| - 1] == last;
      assert Without(a + b, d) == Without(a + init, d) + tail;
      assert Without(b, d) == Without(init, d) + tail;
      WithoutConcat(a, init, d);
      assert (Without(a, d) + Without(init, d)) + tail == Without(a, d) + (Without(init, d) + tail);
    }
  }

  /** Removing `d` and then `e` is removing both at once. */
  lemma {:induction false} WithoutTwice<T>(s: seq<T>, d: set<T>, e: set<T>)
    ensures Without(Without(s, d), e) == Without(s, d + e)
  {
    if s != [] {
      var init, last := s[..|s| - 1], s[|s| - 1];
      WithoutTwice(init, d, e);
      WithoutConcat(Without(init, d), if last in d then [] else [last], e);
    }
  }

  /** Removal keeps the relative order of what remains. */
  lemma {:induction false} WithoutIsSubsequence<T>(s: seq<T>, d: set<T>)
    ensures IsSubsequence(Without(s, d), s)
  {
    if s != [] {
      var init, last := s[..|s| - 1], s[|s| - 1];
      WithoutIsSubsequence(init, d);
      var w := Without(init, d);
      assert s == init + [last];
      if last in d {
        assert Without(s, d) == w;
      } else {
        assert Without(s, d) == w + [last];
        assert (w + [last])[..|w|] == w;
      }
    }
  }

  /** The last element of a duplicate-free sequence is new to the rest, and
      the rest is duplicate-free. */
  lemma LastIsNew<T>(s: seq<T>)
    requires NoDuplicates(s) && s != []
    ensures s[|s| - 1] !in s[..|s| - 1] && NoDuplicates(s[..|s| - 1])
  {
    var p, c := s[..|s| - 1], s[|s| - 1];
    assert s == p + [c];
    assert multiset(s) == multiset(p) + multiset{c};
    assert c in s;
    forall x | x in p ensures multiset(p)[x] <= 1 {
      assert x in s;
    }
  }

  lemma AppendNoDuplicates<T>(s: seq<T>, x: T)
    requires NoDuplicates(s) && x !in s
    ensures NoDuplicates(s + [x])
  {
    assert multiset(s + [x]) == multiset(s) + multiset{x};
  }

  lemma PermutationNoDuplicates<T>(a: seq<T>, b: seq<T>)
    requires NoDuplicates(a) && multiset(a) == multiset(b)
    ensures NoDuplicates(b)
  {
    forall x | x in b ensures multiset(b)[x] <= 1 {
      assert x in multiset(a);
    }
  }

  /** Removing one more element from a list that is a remainder followed by
      elements that do not include it. */
  lemma RemoveFromRemainder<T>(a: seq<T>, d: set<T>, b: seq<T>, c: T)
    requires c !in b
    ensures Without(Without(a, d) + b, {c}) == Without(a, d + {c}) + b
  {
    WithoutConcat(Without(a, d), b, {c});
    WithoutTwice(a, d, {c});
    WithoutAbsent(b, {c});
  }
}
