/** Python's built-in `sorted`, which is a stable sort, modelled as a
    stable insertion sort over any total preorder. */
module Sorting {

  ghost predicate TotalPreorder<T(!new)>(le: (T, T) -> bool)
  {
    && (forall a, b :: le(a, b) || le(b, a))
    && (forall a, b, c :: le(a, b) && le(b, c) ==> le(a, c))
  }

  ghost predicate SortedBy<T>(s: seq<T>, le: (T, T) -> bool)
  {
    forall i, j :: 0 <= i < j < |s| ==> le(s[i], s[j])
  }

  /** Inserts x into a sorted sequence after every element that is not
      above it, so equal elements keep their order. */
  function Insert<T(!new)>(s: seq<T>, x: T, le: (T, T) -> bool): (r: seq<T>)
    requires TotalPreorder(le) && SortedBy(s, le)
    ensures |r| == |s| + 1
    ensures multiset(r) == multiset(s) + multiset{x}
    ensures SortedBy(r, le)
  {
    if s == [] then [x]
    else
      var last := s[|s| - 1];
      if le(last, x) then s + [x]
      else
        var front := Insert(s[..|s| - 1], x, le);
        assert s == s[..|s| - 1] + [last];
        assert forall e :: e in multiset(front) ==> e == x || e in s[..|s| - 1];
        assert forall i :: 0 <= i < |front| ==> le(front[i], last) by {
          forall i | 0 <= i < |front| ensures le(front[i], last) {
            assert front[i] in multiset(front);
            if front[i] != x {
              var j :| 0 <= j < |s| - 1 && s[j] == front[i];
            }
          }
        }
        front + [last]
  }

  /** `sorted(s, key=...)`: a stable sort by the preorder le. */
  function Sort<T(!new)>(s: seq<T>, le: (T, T) -> bool): (r: seq<T>)
    requires TotalPreorder(le)
    ensures |r| == |s|
    ensures multiset(r) == multiset(s)
    ensures SortedBy(r, le)
  {
    if s == [] then []
    else
      assert s == s[..|s| - 1] + [s[|s| - 1]];
      Insert(Sort(s[..|s| - 1], le), s[|s| - 1], le)
  }
}
