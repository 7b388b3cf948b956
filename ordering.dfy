/** The priority order of a manager's capability list: higher priority first.
    The list is re-sorted after every insertion; the sort the engine uses is
    not stable, so nothing here fixes the order of equal priorities. */
module Ordering {
  import opened Capabilities

  /** Non-increasing priority from front to back. */
  predicate SortedByPriority(s: seq<Capability>)
    reads (set x | x in s)`priority
  {
    forall i, j :: 0 <= i < j < |s| ==> s[i].priority >= s[j].priority
  }

  /** `c` placed into the sorted list `s` before the first element of no
      higher priority. */
  function InsertByPriority(c: Capability, s: seq<Capability>): (r: seq<Capability>)
    reads c`priority, (set x | x in s)`priority
    requires SortedByPriority(s)
    ensures multiset(r) == multiset(s) + multiset{c}
    ensures forall x | x in r :: x == c || x in s
    ensures SortedByPriority(r)
    decreases |s|
  {
    if s == [] then [c]
    else if c.priority >= s[0].priority then [c] + s
    else
      var rest := InsertByPriority(c, s[1..]);
      assert s == [s[0]] + s[1..];
      HeadBoundsTail(s);
      PrependSorted(s[0], rest);
      [s[0]] + rest
  }

  lemma HeadBoundsTail(s: seq<Capability>)
    requires s != [] && SortedByPriority(s)
    ensures forall x | x in s[1..] :: x.priority <= s[0].priority
  {
    forall x | x in s[1..] ensures x.priority <= s[0].priority {
      var m :| 0 <= m < |s[1..]| && s[1..][m] == x;
      assert s[m + 1] == x;
    }
  }

  lemma PrependSorted(x: Capability, s: seq<Capability>)
    requires SortedByPriority(s)
    requires forall y | y in s :: y.priority <= x.priority
    ensures SortedByPriority([x] + s)
  {
    var r := [x] + s;
    forall i, j | 0 <= i < j < |r| ensures r[i].priority >= r[j].priority {
      assert r[j] == s[j - 1];
      if i > 0 {
        assert r[i] == s[i - 1];
      }
    }
  }

  /** The re-sort after an insertion: a permutation of `s` in priority order. */
  function SortByPriority(s: seq<Capability>): (r: seq<Capability>)
    reads (set x | x in s)`priority
    ensures multiset(r) == multiset(s)
    ensures forall x | x in r :: x in s
    ensures SortedByPriority(r)
  {
    if s == [] then []
    else
      var init, last := s[..|s| - 1], s[|s| - 1];
      assert s == init + [last];
      var sorted := SortByPriority(init);
      InsertByPriority(last, sorted)
  }

  /** An element that is strictly ahead in priority stands before every element
      of lower priority in a sorted list. */
  lemma {:induction false} HigherPriorityFirst(s: seq<Capability>, a: Capability, b: Capability)
    requires SortedByPriority(s)
    requires a in s && b in s && a.priority > b.priority
    ensures exists i, j :: 0 <= i < j < |s| && s[i] == a && s[j] == b
  {
    var i :| 0 <= i < |s| && s[i] == a;
    var j :| 0 <= j < |s| && s[j] == b;
    if j <= i {
      assert false;
    }
  }
}
