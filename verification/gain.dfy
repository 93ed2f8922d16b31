/** Hake's normalized gain on total points: for the valid joined students, the mean
    score on each side divided by the highest score on that side, and the gain
    `(norm_post - norm_pre) / (1 - norm_pre)`, guarded against zero denominators. */
module Gain {
  import opened Base
  import opened Dict
  import opened Tables
  import opened Join
  import opened Improvement
  import opened Rounding
  import opened Stats
  import opened Grouped
  import opened Sorting
  import opened Text
  import opened Counting

  /** `avg / max if max > 0 else 0`. */
  function Norm(avg: real, max: real): (r: real)
    ensures max <= 0.0 ==> r == 0.0
    ensures max > 0.0 && avg <= max ==> r <= 1.0
    ensures max > 0.0 && avg >= 0.0 ==> r >= 0.0
    ensures max > 0.0 ==> r * max == avg
  {
    if max > 0.0 then avg / max else 0.0
  }

  /** The guarded gain. */
  function GainOf(normPre: real, normPost: real, preMax: real, postMax: real): (g: real)
    ensures preMax == 0.0 || postMax == 0.0 || 1.0 - normPre == 0.0 ==> g == 0.0
    ensures normPre <= 1.0 && normPost <= 1.0 ==> g <= 1.0
    ensures normPre < 1.0 && normPre <= normPost ==> g >= 0.0
    ensures !(preMax == 0.0 || postMax == 0.0 || 1.0 - normPre == 0.0) ==>
              g * (1.0 - normPre) == normPost - normPre
  {
    var denom := 1.0 - normPre;
    if preMax == 0.0 || postMax == 0.0 || denom == 0.0 then 0.0
    else (normPost - normPre) / denom
  }

  datatype GainEntry = GainEntry(
    gain: real,
    avgPreTest: real,
    avgPostTest: real,
    preMax: real,
    postMax: real,
    normPre: real,
    normPost: real,
    validStudents: nat)

  /** What every stored entry satisfies. */
  predicate GainOk(e: GainEntry) {
    && e.validStudents > 0
    && e.normPre <= 1.0 && e.normPost <= 1.0
    && e.gain <= 1.0
    && (e.preMax == 0.0 || e.postMax == 0.0 ==> e.gain == 0.0)
  }

  lemma Round4AtMostOne(x: real)
    requires x <= 1.0
    ensures Round4(x) <= 1.0
  {
    Round4Monotone(x, 1.0);
    Round4Exact(10000);
  }

  lemma Round4AtLeastZero(x: real)
    requires x >= 0.0
    ensures Round4(x) >= 0.0
  {
    Round4Monotone(0.0, x);
    Round4Exact(0);
  }

  /** The entry of a non-empty group of `(pre, post)` total points. The means are rounded
      to two decimals and the normalized means to four; the gain is computed from the
      unrounded normalized means and then rounded to four decimals. */
  function Entry(pres: seq<real>, posts: seq<real>): (e: GainEntry)
    requires |pres| == |posts| > 0
    ensures GainOk(e) && e.validStudents == |pres|
    ensures e.preMax == Max(pres) && e.postMax == Max(posts)
    ensures e.avgPreTest == Round2(Mean(pres)) && e.avgPostTest == Round2(Mean(posts))
    ensures e.normPre == Round4(Norm(Mean(pres), e.preMax))
    ensures e.normPost == Round4(Norm(Mean(posts), e.postMax))
    ensures e.gain == Round4(GainOf(Norm(Mean(pres), e.preMax), Norm(Mean(posts), e.postMax),
                                   e.preMax, e.postMax))
    ensures (forall i :: 0 <= i < |pres| ==> pres[i] >= 0.0 && posts[i] >= 0.0) ==>
              e.normPre >= 0.0 && e.normPost >= 0.0
  {
    var avgPre, avgPost := Mean(pres), Mean(posts);
    var preMax, postMax := Max(pres), Max(posts);
    var normPre, normPost := Norm(avgPre, preMax), Norm(avgPost, postMax);
    var gain := GainOf(normPre, normPost, preMax, postMax);
    Round4AtMostOne(normPre);
    Round4AtMostOne(normPost);
    Round4AtMostOne(gain);
    NormsNonNegative(pres, posts);
    Round4Exact(0);
    GainEntry(Round4(gain), Round2(avgPre), Round2(avgPost), preMax, postMax,
              Round4(normPre), Round4(normPost), |pres|)
  }

  /** Non-negative scores give non-negative normalized means. */
  lemma NormsNonNegative(pres: seq<real>, posts: seq<real>)
    requires |pres| == |posts| > 0
    ensures (forall i :: 0 <= i < |pres| ==> pres[i] >= 0.0 && posts[i] >= 0.0) ==>
      Round4(Norm(Mean(pres), Max(pres))) >= 0.0 && Round4(Norm(Mean(posts), Max(posts))) >= 0.0
  {
    if forall i :: 0 <= i < |pres| ==> pres[i] >= 0.0 && posts[i] >= 0.0 {
      MeanWithin(pres, 0.0, Max(pres));
      MeanWithin(posts, 0.0, Max(posts));
      Round4AtLeastZero(Norm(Mean(pres), Max(pres)));
      Round4AtLeastZero(Norm(Mean(posts), Max(posts)));
    }
  }

  /** Every valid pair holds two numbers. */
  predicate NumericWhereValid(ps: seq<(Cell, Cell)>) {
    forall k :: 0 <= k < |ps| && Valid(ps[k]) ==> ps[k].0.Num? && ps[k].1.Num?
  }

  /** The valid pairs' scores, or the `TypeError` of averaging a non-number. */
  function Scores(ps: seq<(Cell, Cell)>): (r: Result<(seq<real>, seq<real>)>)
    ensures r.Ok? <==> NumericWhereValid(ps)
    ensures r.Ok? ==> |r.value.0| == |r.value.1| == Count(ps, Valid)
    ensures r.Ok? ==> (|r.value.0| == 0 <==> !AnyValid(ps))
    ensures r.Ok? ==> forall i :: 0 <= i < |r.value.0| ==>
      exists k :: 0 <= k < |ps| && Valid(ps[k])
        && ps[k].0 == Num(r.value.0[i], ps[k].0.shown) && ps[k].1 == Num(r.value.1[i], ps[k].1.shown)
  {
    if |ps| == 0 then CountEmpty(ps, Valid); Ok(([], []))
    else
      assert forall k :: 0 < k < |ps| ==> ps[k] == ps[1..][k - 1];
      match Scores(ps[1..])
      case Err(e) => Err(e)
      case Ok(rest) =>
        CountTail(ps, Valid);
        if !Valid(ps[0]) then Ok(rest)
        else if ps[0].0.Num? && ps[0].1.Num? then
          var r := ([ps[0].0.value] + rest.0, [ps[0].1.value] + rest.1);
          assert forall i :: 1 <= i < |r.0| ==> r.0[i] == rest.0[i - 1] && r.1[i] == rest.1[i - 1];
          Ok(r)
        else Err(NonNumericScores)
  }

  /** The entry of one group, when it has valid students. */
  function GroupGain(ps: seq<(Cell, Cell)>): (r: Result<Option<GainEntry>>)
    ensures r.Ok? <==> !AnyValid(ps) || NumericWhereValid(ps)
    ensures r.Ok? ==> (r.value.Some? <==> AnyValid(ps))
    ensures r.Ok? && r.value.Some? ==> GainOk(r.value.value)
    ensures r.Ok? && r.value.Some? ==> r.value.value.validStudents == Count(ps, Valid)
    ensures r.Ok? && r.value.Some? ==>
      r.value.value == Entry(Scores(ps).value.0, Scores(ps).value.1)
  {
    if !AnyValid(ps) then Ok(None)
    else
      var xs :- Scores(ps);
      Ok(Some(Entry(xs.0, xs.1)))
  }

  predicate AllGainOk(g: Dict<GainEntry>) {
    forall i :: 0 <= i < |g| ==> GainOk(g[i].1)
  }

  /** The date loop of the gain analysis. */
  function AddGainDates(g: Dict<GainEntry>, ds: seq<string>, sp: Split): (r: Result<Dict<GainEntry>>)
    requires AllGainOk(g) && DistinctKeys(g)
    ensures r.Ok? <==> forall d :: d in ds ==> GroupGain(sp.DateJoin(d)).Ok?
    ensures r.Ok? ==> AllGainOk(r.value) && DistinctKeys(r.value)
    ensures r.Ok? ==> forall k :: k in Keys(r.value) <==>
      k in Keys(g) || (k in ds && AnyValid(sp.DateJoin(k)))
    decreases |ds|
  {
    if |ds| == 0 then Ok(g)
    else
      var d := ds[0];
      assert forall x :: x in ds <==> x == d || x in ds[1..];
      match GroupGain(sp.DateJoin(d))
      case Err(e) => Err(e)
      case Ok(None) => AddGainDates(g, ds[1..], sp)
      case Ok(Some(e)) => AddGainDates(PutGain(g, d, e), ds[1..], sp)
  }

  /** The loop stores each date's own entry when the date has a valid student, and leaves
      every other key as it was. */
  lemma {:induction false} AddGainDatesValues(g: Dict<GainEntry>, ds: seq<string>, sp: Split)
    requires AllGainOk(g) && DistinctKeys(g) && StrictlySorted(ds)
    requires AddGainDates(g, ds, sp).Ok?
    ensures forall d :: d in ds && AnyValid(sp.DateJoin(d)) ==>
      GroupGain(sp.DateJoin(d)).Ok? && Get(AddGainDates(g, ds, sp).value, d) == GroupGain(sp.DateJoin(d)).value
    ensures forall k :: !(k in ds && AnyValid(sp.DateJoin(k))) ==>
      Get(AddGainDates(g, ds, sp).value, k) == Get(g, k)
    decreases |ds|
  {
    if |ds| > 0 {
      var d := ds[0];
      assert forall x :: x in ds <==> x == d || x in ds[1..];
      assert d !in ds[1..] by {
        LessIrreflexive(d);
      }
      var gg := GroupGain(sp.DateJoin(d));
      assert gg.Ok?;
      var next := if gg.value.Some? then PutGain(g, d, gg.value.value) else g;
      assert AddGainDates(g, ds, sp) == AddGainDates(next, ds[1..], sp);
      assert gg.value.Some? <==> AnyValid(sp.DateJoin(d));
      assert gg.value.Some? ==> Get(next, d) == gg.value;
      assert forall k :: k != d ==> Get(next, k) == Get(g, k);
      AddGainDatesValues(next, ds[1..], sp);
    }
  }

  /** `normalized_gain_data[d] = entry`, keeping every stored entry sound. */
  function PutGain(g: Dict<GainEntry>, d: string, e: GainEntry): (r: Dict<GainEntry>)
    requires AllGainOk(g) && DistinctKeys(g) && GainOk(e)
    ensures AllGainOk(r) && DistinctKeys(r)
    ensures forall k :: k in Keys(r) <==> k in Keys(g) || k == d
    ensures Get(r, d) == Some(e) && forall k :: k != d ==> Get(r, k) == Get(g, k)
  {
    var r := Put(g, d, e);
    assert forall k :: k in Keys(r) <==> k in Keys(g) || k == d;
    r
  }

  /** `normalized_gain_data`: a `Combined` entry and one entry per date, each only when
      its group has valid students. */
  function NormalizedGain(sp: Split): (r: Result<Dict<GainEntry>>)
    ensures r.Ok? <==> (GroupGain(Joined(sp.pre, sp.post, sp.c)).Ok?
      && forall d :: d in AllDates(sp.preDates, sp.postDates) ==> GroupGain(sp.DateJoin(d)).Ok?)
    ensures r.Ok? ==> AllGainOk(r.value) && DistinctKeys(r.value)
    ensures r.Ok? ==> forall d :: d in AllDates(sp.preDates, sp.postDates) && d != "Combined" ==>
      (d in Keys(r.value) <==> AnyValid(sp.DateJoin(d)))
    ensures r.Ok? ==> ("Combined" in Keys(r.value) <==>
      AnyValid(Joined(sp.pre, sp.post, sp.c))
      || ("Combined" in AllDates(sp.preDates, sp.postDates) && AnyValid(sp.DateJoin("Combined"))))
    ensures r.Ok? ==> forall k :: k in Keys(r.value) ==>
      k == "Combined" || k in AllDates(sp.preDates, sp.postDates)
    ensures r.Ok? ==> forall d :: d in AllDates(sp.preDates, sp.postDates) && AnyValid(sp.DateJoin(d)) ==>
      GroupGain(sp.DateJoin(d)).Ok? && Get(r.value, d) == GroupGain(sp.DateJoin(d)).value
    ensures r.Ok? && !("Combined" in AllDates(sp.preDates, sp.postDates) && AnyValid(sp.DateJoin("Combined"))) ==>
      GroupGain(Joined(sp.pre, sp.post, sp.c)).Ok?
      && Get(r.value, "Combined") == GroupGain(Joined(sp.pre, sp.post, sp.c)).value
  {
    match CombinedGain(sp)
    case Err(e) => Err(e)
    case Ok(g) =>
      var ds := AllDates(sp.preDates, sp.postDates);
      var r := AddGainDates(g, ds, sp);
      if r.Ok? then
        AddGainDatesValues(g, ds, sp);
        assert "Combined" in Keys(g) ==> "Combined" in Keys(r.value);
        r
      else r
  }

  /** The `Combined` entry on its own, present when any joined student has both scores. */
  function CombinedGain(sp: Split): (r: Result<Dict<GainEntry>>)
    ensures r.Ok? ==> AllGainOk(r.value) && DistinctKeys(r.value)
    ensures r.Ok? ==> forall k :: k in Keys(r.value) <==>
      k == "Combined" && AnyValid(Joined(sp.pre, sp.post, sp.c))
    ensures r.Ok? ==> ("Combined" in Keys(r.value) <==> AnyValid(Joined(sp.pre, sp.post, sp.c)))
    ensures r.Ok? <==> GroupGain(Joined(sp.pre, sp.post, sp.c)).Ok?
    ensures r.Ok? ==> Get(r.value, "Combined") == GroupGain(Joined(sp.pre, sp.post, sp.c)).value
  {
    var j := Joined(sp.pre, sp.post, sp.c);
    match GroupGain(j)
    case Err(e) => Err(e)
    case Ok(combined) => Ok(AtMostOne("Combined", combined))
  }

  /** The table holding `e` under `k` when there is an entry, and empty otherwise. */
  function AtMostOne(k: string, e: Option<GainEntry>): (g: Dict<GainEntry>)
    requires e.Some? ==> GainOk(e.value)
    ensures AllGainOk(g) && DistinctKeys(g)
    ensures forall x :: x in Keys(g) <==> x == k && e.Some?
    ensures Get(g, k) == e
  {
    var g: Dict<GainEntry> := if e.Some? then [(k, e.value)] else [];
    assert Keys(g) == if e.Some? then [k] else [];
    g
  }
}
