/** `sorted(set(xs))` on strings: the distinct values in ascending code-point order. */
module Sorting {
  import opened Text

  predicate StrictlySorted(s: seq<string>) {
    forall i, j :: 0 <= i < j < |s| ==> Less(s[i], s[j])
  }

  /** Adds `x` to a strictly sorted sequence unless it is already there. */
  function Insert(x: string, s: seq<string>): (r: seq<string>)
    requires StrictlySorted(s)
    ensures StrictlySorted(r)
    ensures forall y :: y in r <==> y == x || y in s
    decreases |s|
  {
    if |s| == 0 then [x]
    else if x == s[0] then s
    else if Less(x, s[0]) then
      forall j | 0 <= j < |s| ensures Less(x, s[j]) {
        if j > 0 { LessTransitive(x, s[0], s[j]); }
      }
      [x] + s
    else
      LessTotal(x, s[0]);
      var t := Insert(x, s[1..]);
      assert forall y :: y in t ==> Less(s[0], y);
      [s[0]] + t
  }

  /** The distinct entries of `xs`, sorted. */
  function SortDistinct(xs: seq<string>): (r: seq<string>)
    ensures StrictlySorted(r)
    ensures forall y :: y in r <==> y in xs
  {
    if |xs| == 0 then [] else Insert(xs[|xs| - 1], SortDistinct(xs[..|xs| - 1]))
  }

  /** A strictly sorted sequence repeats nothing. */
  lemma SortedDistinct(s: seq<string>, i: int, j: int)
    requires StrictlySorted(s) && 0 <= i < j < |s|
    ensures s[i] != s[j]
  {
    LessIrreflexive(s[i]);
  }

  /** Sorting is canonical: two sequences with the same entries sort to the same result,
      whatever their order and repetitions. */
  lemma {:induction false} SortCanonical(r1: seq<string>, r2: seq<string>)
    requires StrictlySorted(r1) && StrictlySorted(r2)
    requires forall y :: y in r1 <==> y in r2
    ensures r1 == r2
    decreases |r1|
  {
    BothEmptyOrNot(r1, r2);
    if |r1| > 0 {
      var a, b := r1[0], r2[0];
      if a != b {
        assert a in r2 && b in r1;
        SortedHeadLeast(r1, b);
        SortedHeadLeast(r2, a);
        LessTransitive(a, b, a);
        LessIrreflexive(a);
      }
      forall y ensures y in r1[1..] <==> y in r2[1..] {
        if y in r1[1..] {
          var i :| 0 <= i < |r1| - 1 && r1[1..][i] == y;
          SortedDistinct(r1, 0, i + 1);
          assert r1[i + 1] == y;
          assert y in r1;
          assert y in r2;
          var j :| 0 <= j < |r2| && r2[j] == y;
          assert j > 0;
          assert r2[1..][j - 1] == y;
        }
        if y in r2[1..] {
          var i :| 0 <= i < |r2| - 1 && r2[1..][i] == y;
          SortedDistinct(r2, 0, i + 1);
          assert r2[i + 1] == y;
          assert y in r2;
          assert y in r1;
          var j :| 0 <= j < |r1| && r1[j] == y;
          assert j > 0;
          assert r1[1..][j - 1] == y;
        }
      }
      SortCanonical(r1[1..], r2[1..]);
      assert r1 == [a] + r1[1..] && r2 == [b] + r2[1..];
    }
  }

  /** The head of a strictly sorted sequence is below every other entry. */
  lemma SortedHeadLeast(r: seq<string>, y: string)
    requires StrictlySorted(r) && y in r && y != r[0]
    ensures Less(r[0], y)
  {
    var i :| 0 <= i < |r| && r[i] == y;
  }

  lemma BothEmptyOrNot(r1: seq<string>, r2: seq<string>)
    requires forall y :: y in r1 <==> y in r2
    ensures |r1| == 0 <==> |r2| == 0
  {
    if |r1| > 0 {
      assert r1[0] in r2;
    }
    if |r2| > 0 {
      assert r2[0] in r1;
    }
  }
}
