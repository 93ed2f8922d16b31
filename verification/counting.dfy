/** How many entries of a sequence satisfy a predicate, stated as the size of the set of
    their positions: the `.sum()` of a boolean mask. */
module Counting {

  /** The positions of `s` whose entry satisfies `p`. */
  function Where<T>(s: seq<T>, p: T -> bool): set<int> {
    set k | 0 <= k < |s| && p(s[k])
  }

  /** The number of entries of `s` that satisfy `p`. */
  function Count<T>(s: seq<T>, p: T -> bool): nat {
    |Where(s, p)|
  }

  /** Appending one entry adds its position exactly when it satisfies `p`. */
  lemma WhereSnoc<T>(s: seq<T>, x: T, p: T -> bool)
    ensures Where(s + [x], p) == Where(s, p) + (if p(x) then {|s|} else {})
  {
    assert forall k :: 0 <= k < |s| ==> (s + [x])[k] == s[k];
  }

  lemma CountSnoc<T>(s: seq<T>, x: T, p: T -> bool)
    ensures Count(s + [x], p) == Count(s, p) + (if p(x) then 1 else 0)
  {
    WhereSnoc(s, x, p);
    assert |s| !in Where(s, p);
  }

  /** Prepending one entry adds one exactly when it satisfies `p`. */
  lemma {:induction false} CountCons<T>(x: T, s: seq<T>, p: T -> bool)
    ensures Count([x] + s, p) == (if p(x) then 1 else 0) + Count(s, p)
    decreases |s|
  {
    if |s| == 0 {
      assert [x] + s == [] + [x];
      CountSnoc([], x, p);
      assert Where([], p) == {};
    } else {
      var front, y := s[..|s| - 1], s[|s| - 1];
      assert s == front + [y];
      assert [x] + s == ([x] + front) + [y];
      CountSnoc([x] + front, y, p);
      CountCons(x, front, p);
      CountSnoc(front, y, p);
    }
  }

  /** The count of a non-empty sequence, split at its first entry. */
  lemma CountTail<T>(s: seq<T>, p: T -> bool)
    requires |s| > 0
    ensures Count(s, p) == (if p(s[0]) then 1 else 0) + Count(s[1..], p)
  {
    assert s == [s[0]] + s[1..];
    CountCons(s[0], s[1..], p);
  }

  lemma CountEmpty<T>(s: seq<T>, p: T -> bool)
    requires |s| == 0
    ensures Count(s, p) == 0
  {
    assert Where(s, p) == {};
  }
}
