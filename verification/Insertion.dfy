/** Keeping a list in order, one item at a time. */
module Insertion {
  /** `x` put behind the last item it goes behind. */
  function Place<T>(s: seq<T>, x: T, behind: (T, T) -> bool): seq<T> {
    if s == [] || behind(s[|s| - 1], x) then s + [x] else Place(s[..|s| - 1], x, behind) + [s[|s| - 1]]
  }

  ghost predicate Ordered<T(!new)>(s: seq<T>, before: (T, T) -> bool) {
    forall i, j :: 0 <= i < j < |s| ==> before(s[i], s[j])
  }

  lemma {:induction false} PlaceKeeps<T>(s: seq<T>, x: T, behind: (T, T) -> bool)
    ensures |Place(s, x, behind)| == |s| + 1 && multiset(Place(s, x, behind)) == multiset(s) + multiset{x}
    ensures forall y :: y in Place(s, x, behind) <==> y in s || y == x
  {
    if s != [] && !behind(s[|s| - 1], x) {
      PlaceKeeps(s[..|s| - 1], x, behind);
      assert s == s[..|s| - 1] + [s[|s| - 1]];
    }
  }

  lemma OrderedSnoc<T(!new)>(s: seq<T>, x: T, before: (T, T) -> bool)
    requires Ordered(s, before) && forall y :: y in s ==> before(y, x)
    ensures Ordered(s + [x], before)
  {
  }

  /** An ordered list stays ordered, where the order agrees with the place sought. */
  lemma {:induction false} PlaceOrders<T(!new)>(s: seq<T>, x: T, behind: (T, T) -> bool, before: (T, T) -> bool)
    requires Ordered(s, before)
    requires forall y :: y in s ==> before(y, x) || !behind(y, x)
    requires forall y :: y in s ==> before(x, y) || behind(y, x)
    requires forall y, z :: y in s && z in s && before(y, z) && behind(z, x) ==> before(y, x)
    ensures Ordered(Place(s, x, behind), before)
  {
    if s != [] {
      var front, last := s[..|s| - 1], s[|s| - 1];
      if behind(last, x) {
        forall y | y in s ensures before(y, x) {
          var i :| 0 <= i < |s| && s[i] == y;
          if i < |s| - 1 { assert before(s[i], s[|s| - 1]); }
        }
        OrderedSnoc(s, x, before);
      } else {
        PlaceOrders(front, x, behind, before);
        PlaceKeeps(front, x, behind);
        forall y | y in Place(front, x, behind) ensures before(y, last) {
          if y in front {
            var i :| 0 <= i < |front| && front[i] == y;
            assert before(s[i], s[|s| - 1]);
          } else {
            assert last in s;
          }
        }
        OrderedSnoc(Place(front, x, behind), last, before);
      }
    }
  }
}
