/** Items in the order they first came, as the keys of a Python dictionary. */
module FirstSeen {
  /** The first time an item comes. */
  function FirstAt<T(==)>(s: seq<T>, x: T): (k: nat)
    requires x in s
    ensures k < |s| && s[k] == x && forall j :: 0 <= j < k ==> s[j] != x
  {
    if x in s[..|s| - 1] then FirstAt(s[..|s| - 1], x) else |s| - 1
  }

  /** Each item once, in the order the items first came. */
  function Distinct<T(==)>(s: seq<T>): seq<T> {
    if s == [] then []
    else
      var before := Distinct(s[..|s| - 1]);
      if s[|s| - 1] in before then before else before + [s[|s| - 1]]
  }

  lemma {:induction false} DistinctIs<T(!new)>(s: seq<T>)
    ensures forall x :: x in Distinct(s) <==> x in s
    ensures forall a, b :: 0 <= a < b < |Distinct(s)| ==>
              && Distinct(s)[a] in s && Distinct(s)[b] in s && Distinct(s)[a] != Distinct(s)[b]
              && FirstAt(s, Distinct(s)[a]) < FirstAt(s, Distinct(s)[b])
  {
    if s != [] {
      var front, last := s[..|s| - 1], s[|s| - 1];
      DistinctIs(front);
      assert forall x :: x in s <==> x in front || x == last by { assert s == front + [last]; }
      assert forall x :: x in front ==> FirstAt(s, x) == FirstAt(front, x);
      if last !in front { assert FirstAt(s, last) == |front|; }
      hide FirstAt;
    }
  }

  lemma DistinctSnoc<T(!new)>(s: seq<T>, x: T)
    ensures Distinct(s + [x]) == if x in s then Distinct(s) else Distinct(s) + [x]
  {
    DistinctIs(s);
    assert (s + [x])[..|s|] == s;
  }
}
