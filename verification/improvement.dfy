/** The improvement rate: among joined students with a score on both sides, the
    percentage whose post-assessment score is strictly greater than their pre-assessment
    score. */
module Improvement {
  import opened Base
  import opened Tables
  import opened Text
  import opened Rounding
  import opened Counting

  /** Python can order the two scores: both numbers, both texts or both timestamps. */
  predicate Comparable(post: Cell, pre: Cell) {
    || (post.Num? && pre.Num?)
    || (post.Str? && pre.Str?)
    || (post.Stamp? && pre.Stamp?)
  }

  /** `post > pre` on two cells; any other mixture raises `TypeError`. */
  function Greater(post: Cell, pre: Cell): (r: Result<bool>)
    ensures r.Ok? <==> Comparable(post, pre)
  {
    match (post, pre)
    case (Num(x, _), Num(y, _)) => Ok(x > y)
    case (Str(x), Str(y)) => Ok(Less(y, x))
    case (Stamp(x, _), Stamp(y, _)) => Ok(x > y)
    case _ => Err(UncomparableScores)
  }

  /** A joined `(pre, post)` pair counts when neither score is empty. */
  predicate Valid(p: (Cell, Cell)) {
    !p.0.Null? && !p.1.Null?
  }

  predicate Improved(p: (Cell, Cell)) {
    Greater(p.1, p.0) == Ok(true)
  }

  /** A valid pair whose post-assessment score is the greater. */
  predicate ValidImproved(p: (Cell, Cell)) {
    Valid(p) && Improved(p)
  }

  predicate AllComparable(ps: seq<(Cell, Cell)>) {
    forall k :: 0 <= k < |ps| && Valid(ps[k]) ==> Comparable(ps[k].1, ps[k].0)
  }

  /** Improved students and valid students. */
  datatype Tally = Tally(improved: nat, valid: nat)

  /** `((post[valid] > pre[valid])).sum()` and `valid.sum()` over the joined pairs. The
      comparison fails as a whole when any valid pair cannot be ordered. */
  function TallyOf(ps: seq<(Cell, Cell)>): (r: Result<Tally>)
    ensures r.Ok? <==> AllComparable(ps)
    ensures r.Ok? ==> r.value.valid == Count(ps, Valid)
    ensures r.Ok? ==> r.value.improved == Count(ps, ValidImproved)
    ensures r.Ok? ==> r.value.improved <= r.value.valid <= |ps|
    ensures r.Ok? ==> (r.value.valid == 0 <==> forall k :: 0 <= k < |ps| ==> !Valid(ps[k]))
    ensures r.Ok? ==>
      (r.value.improved == 0 <==> forall k :: 0 <= k < |ps| && Valid(ps[k]) ==> !Improved(ps[k]))
    ensures r.Ok? ==>
      (r.value.improved == r.value.valid <==>
        forall k :: 0 <= k < |ps| && Valid(ps[k]) ==> Improved(ps[k]))
  {
    if |ps| == 0 then CountEmpty(ps, Valid); CountEmpty(ps, ValidImproved); Ok(Tally(0, 0))
    else
      var rest := TallyOf(ps[1..]);
      assert forall k :: 0 < k < |ps| ==> ps[k] == ps[1..][k - 1];
      CountTail(ps, Valid);
      CountTail(ps, ValidImproved);
      if !Valid(ps[0]) then rest
      else match Greater(ps[0].1, ps[0].0)
        case Err(e) => Err(e)
        case Ok(up) =>
          match rest
          case Err(e) => Err(e)
          case Ok(t) =>
            Ok(Tally(t.improved + (if up then 1 else 0), t.valid + 1))
  }

  /** `improvement_count / total_students * 100`, or 0 without valid students. */
  function Rate(t: Tally): (r: real)
    ensures t.valid == 0 ==> r == 0.0
    ensures t.valid > 0 ==> r * t.valid as real == 100.0 * t.improved as real
    ensures t.improved <= t.valid ==> 0.0 <= r <= 100.0
    ensures t.improved <= t.valid ==> (r == 100.0 <==> t.valid > 0 && t.improved == t.valid)
    ensures r == 0.0 <==> t.valid == 0 || t.improved == 0
  {
    if t.valid > 0 then t.improved as real / t.valid as real * 100.0 else 0.0
  }

  /** `round(rate, 2)` of the pairs, or the error the comparison raises. */
  function ImprovementRate(ps: seq<(Cell, Cell)>): (r: Result<real>)
    ensures r.Ok? <==> AllComparable(ps)
    ensures r.Ok? ==> 0.0 <= r.value <= 100.0
    ensures r.Ok? && Count(ps, Valid) == 0 ==> r.value == 0.0
    ensures r.Ok? && Count(ps, Valid) > 0 ==>
      r.value == Round2(Count(ps, ValidImproved) as real / Count(ps, Valid) as real * 100.0)
  {
    var t :- TallyOf(ps);
    Round2Percentage(Rate(t));
    Ok(Round2(Rate(t)))
  }

  /** The unrounded rate is 100 exactly when every valid student improved, and 0 exactly
      when none did (or there was nobody to compare). */
  lemma RateMeaning(ps: seq<(Cell, Cell)>)
    requires AllComparable(ps)
    ensures TallyOf(ps).Ok?
    ensures Rate(TallyOf(ps).value) == 100.0 <==>
      (exists k :: 0 <= k < |ps| && Valid(ps[k]))
      && forall k :: 0 <= k < |ps| && Valid(ps[k]) ==> Improved(ps[k])
    ensures Rate(TallyOf(ps).value) == 0.0 <==>
      forall k :: 0 <= k < |ps| && Valid(ps[k]) ==> !Improved(ps[k])
  {
    var t := TallyOf(ps).value;
    if t.valid == 0 {
      assert forall k :: 0 <= k < |ps| ==> !Valid(ps[k]);
    }
  }

  /** Only valid pairs matter: appending a pair with an empty side changes nothing. */
  lemma {:induction false} InvalidPairIgnored(ps: seq<(Cell, Cell)>, p: (Cell, Cell))
    requires !Valid(p)
    ensures TallyOf([p] + ps) == TallyOf(ps)
  {
    assert ([p] + ps)[1..] == ps;
  }

  /** Three students scoring 40, 50, 60 before and 45, 55, 55 after: two of three
      improved, a rate of 66.67. */
  lemma ThreeStudentsExample()
    ensures ImprovementRate([(Num(40.0, "40"), Num(45.0, "45")),
                             (Num(50.0, "50"), Num(55.0, "55")),
                             (Num(60.0, "60"), Num(55.0, "55"))]) == Ok(66.67)
  {
    var ps := [(Num(40.0, "40"), Num(45.0, "45")),
               (Num(50.0, "50"), Num(55.0, "55")),
               (Num(60.0, "60"), Num(55.0, "55"))];
    assert ps[1..][1..][1..] == [];
    assert TallyOf(ps[1..][1..]) == Ok(Tally(0, 1));
    assert TallyOf(ps[1..]) == Ok(Tally(1, 2));
    assert TallyOf(ps) == Ok(Tally(2, 3));
    var r := Rate(Tally(2, 3));
    assert r == 200.0 / 3.0;
    RoundHalfEvenUnique(r * 100.0, 6667);
  }
}
