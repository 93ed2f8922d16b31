/** The feedback analysis: four rating columns `F1` … `F4` are located by header, each
    respondent whose four ratings all read as numbers gets a weighted score, and the
    average of those scores, rounded to two places, is the training's rating. */
module Feedback {
  import opened Base
  import opened Text
  import opened Tables
  import opened Hooks
  import opened Rounding
  import opened Stats
  import opened Counting

  /** The four rating columns by their short names. */
  const Labels: seq<string> := ["F1", "F2", "F3", "F4"]

  /** The share of each rating in a respondent's score. */
  const Weights: seq<real> := [0.30, 0.25, 0.25, 0.20]

  /** Rating `i`'s header under the current naming convention starts with `F<i>Que`. */
  function QuePrefix(i: nat): string
    requires i < 4
  {
    Labels[i] + "Que"
  }

  /** The header of rating `i` found the first way: by its `F<i>Que` prefix. */
  function ByPrefix(cols: seq<string>, i: nat): Option<nat>
    requires i < 4
  {
    FindColumn(cols, CleanStartsWith(QuePrefix(i)))
  }

  /** The header of rating `i` found the second way: by its bare name `F<i>`. */
  function ByName(cols: seq<string>, i: nat): Option<nat>
    requires i < 4
  {
    FindColumn(cols, CleanEquals(Labels[i]))
  }

  /** `detected_feedback_columns`: every rating is first looked for by prefix; when not
      all four are found that way, each one still missing is looked for by bare name. */
  function Detect(cols: seq<string>): (d: seq<Option<nat>>)
    ensures |d| == 4
    ensures forall i :: 0 <= i < 4 && d[i].Some? ==>
      d[i].value < |cols|
      && (Matches(CleanStartsWith(QuePrefix(i)), cols[d[i].value])
          || Matches(CleanEquals(Labels[i]), cols[d[i].value]))
    ensures forall i :: 0 <= i < 4 && d[i].None? ==> forall j :: 0 <= j < |cols| ==>
      !Matches(CleanStartsWith(QuePrefix(i)), cols[j]) && !Matches(CleanEquals(Labels[i]), cols[j])
  {
    var prefixed := seq(4, i requires 0 <= i < 4 => ByPrefix(cols, i));
    if forall i :: 0 <= i < 4 ==> prefixed[i].Some? then prefixed
    else seq(4, i requires 0 <= i < 4 => if prefixed[i].Some? then prefixed[i] else ByName(cols, i))
  }

  /** The all-four test before the fallback makes no difference: each rating column is
      simply its first prefixed header, or failing that its first bare-named one. A
      prefixed header wins over a bare-named one anywhere in the header row. */
  lemma DetectPerSlot(cols: seq<string>, i: nat)
    requires i < 4
    ensures Detect(cols)[i] == if ByPrefix(cols, i).Some? then ByPrefix(cols, i) else ByName(cols, i)
  {
  }

  /** `float(cell) if pd.notnull(cell) else None`, with `None` also for the cells where
      `float` raises (text that is not a number, a timestamp). */
  function FloatOf(c: Cell, h: Hooks): (r: Option<real>)
    ensures c.Null? || c.Stamp? ==> r.None?
    ensures c.Num? ==> r == Some(c.value)
  {
    match c
    case Null => None
    case Num(v, _) => Some(v)
    case Str(s) => h.parseFloat(s)
    case Stamp(_, _) => None
  }

  /** The four ratings of one row, when every one of them reads as a number. */
  function Ratings(row: Row, cols: seq<nat>, h: Hooks): (r: Option<seq<real>>)
    requires |cols| == 4
    ensures r.Some? <==> forall i :: 0 <= i < 4 ==> FloatOf(At(row, cols[i]), h).Some?
    ensures r.Some? ==> |r.value| == 4
    ensures r.Some? ==> forall i :: 0 <= i < 4 ==> Some(r.value[i]) == FloatOf(At(row, cols[i]), h)
  {
    if forall i :: 0 <= i < 4 ==> FloatOf(At(row, cols[i]), h).Some? then
      Some(seq(4, i requires 0 <= i < 4 => FloatOf(At(row, cols[i]), h).value))
    else None
  }

  /** `f1 * 0.30 + f2 * 0.25 + f3 * 0.25 + f4 * 0.20`. */
  function Weighted(f: seq<real>): (r: real)
    requires |f| == 4
    ensures Min(f) <= r <= Max(f)
    ensures (forall i :: 0 <= i < 4 ==> f[i] == f[0]) ==> r == f[0]
  {
    f[0] * Weights[0] + f[1] * Weights[1] + f[2] * Weights[2] + f[3] * Weights[3]
  }

  /** The weights are a proper average: non-negative and summing to one. */
  lemma WeightsAverage()
    ensures forall i :: 0 <= i < 4 ==> Weights[i] >= 0.0
    ensures Weights[0] + Weights[1] + Weights[2] + Weights[3] == 1.0
  {
  }

  /** The row's four ratings all read as numbers. */
  function Rated(cols: seq<nat>, h: Hooks): Row -> bool {
    row => |cols| == 4 && Ratings(row, cols, h).Some?
  }

  /** `weighted_scores`: the score of every row whose four ratings read as numbers, in
      row order; the other rows are skipped. */
  function Scores(rows: seq<Row>, cols: seq<nat>, h: Hooks): (r: seq<real>)
    requires |cols| == 4
    ensures |r| == Count(rows, Rated(cols, h))
    ensures |r| <= |rows|
    ensures |r| == 0 <==> forall i :: 0 <= i < |rows| ==> Ratings(rows[i], cols, h).None?
  {
    if |rows| == 0 then CountEmpty(rows, Rated(cols, h)); []
    else
      var rest := Scores(rows[1..], cols, h);
      assert forall i :: 0 < i < |rows| ==> rows[i] == rows[1..][i - 1];
      CountTail(rows, Rated(cols, h));
      match Ratings(rows[0], cols, h)
      case None => rest
      case Some(f) => [Weighted(f)] + rest
  }

  /** What one row contributes to the scores: its score, or nothing. */
  function Own(row: Row, cols: seq<nat>, h: Hooks): seq<real>
    requires |cols| == 4
  {
    match Ratings(row, cols, h)
    case None => []
    case Some(f) => [Weighted(f)]
  }

  lemma ScoresCons(rows: seq<Row>, cols: seq<nat>, h: Hooks)
    requires |cols| == 4 && |rows| > 0
    ensures Scores(rows, cols, h) == Own(rows[0], cols, h) + Scores(rows[1..], cols, h)
  {
  }

  lemma TailOfSnoc<T>(a: seq<T>, x: T)
    requires |a| > 0
    ensures (a + [x])[0] == a[0] && (a + [x])[1..] == a[1..] + [x]
  {
  }

  lemma ScoresOne(row: Row, cols: seq<nat>, h: Hooks)
    requires |cols| == 4
    ensures Scores([row], cols, h) == Own(row, cols, h)
  {
    assert [row][1..] == [];
  }

  /** The loop over the rows: a further row appends its score exactly when its four
      ratings read as numbers. */
  lemma {:induction false} ScoresAppend(rows: seq<Row>, row: Row, cols: seq<nat>, h: Hooks)
    requires |cols| == 4
    ensures Scores(rows + [row], cols, h) == Scores(rows, cols, h) + Own(row, cols, h)
  {
    var s := rows + [row];
    var z := Own(row, cols, h);
    if |rows| == 0 {
      assert s == [row];
      ScoresOne(row, cols, h);
    } else {
      var x, y := Own(rows[0], cols, h), Scores(rows[1..], cols, h);
      TailOfSnoc(rows, row);
      assert Scores(s, cols, h) == x + Scores(rows[1..] + [row], cols, h) by {
        ScoresCons(s, cols, h);
      }
      assert Scores(rows[1..] + [row], cols, h) == y + z by {
        ScoresAppend(rows[1..], row, cols, h);
      }
      assert Scores(rows, cols, h) == x + y by {
        ScoresCons(rows, cols, h);
      }
      assert x + (y + z) == (x + y) + z;
    }
  }

  /** A further row whose ratings read as numbers appends its weighted rating; any other
      row appends nothing. */
  lemma ScoresAppendRated(rows: seq<Row>, row: Row, cols: seq<nat>, h: Hooks)
    requires |cols| == 4
    ensures Ratings(row, cols, h).Some? ==>
      Scores(rows + [row], cols, h) == Scores(rows, cols, h) + [Weighted(Ratings(row, cols, h).value)]
    ensures Ratings(row, cols, h).None? ==> Scores(rows + [row], cols, h) == Scores(rows, cols, h)
  {
    ScoresAppend(rows, row, cols, h);
  }

  /** The row's ratings, if they all read as numbers, lie between `lo` and `hi`. */
  predicate RowWithin(row: Row, cols: seq<nat>, h: Hooks, lo: real, hi: real)
    requires |cols| == 4
  {
    var f := Ratings(row, cols, h);
    f.Some? ==> forall j :: 0 <= j < 4 ==> lo <= f.value[j] <= hi
  }

  /** Every parsed rating lies between `lo` and `hi`. */
  predicate RatedWithin(rows: seq<Row>, cols: seq<nat>, h: Hooks, lo: real, hi: real)
    requires |cols| == 4
  {
    forall i :: 0 <= i < |rows| ==> RowWithin(rows[i], cols, h, lo, hi)
  }

  /** Ratings on a scale give scores on the same scale. */
  lemma {:induction false} ScoresWithin(rows: seq<Row>, cols: seq<nat>, h: Hooks, lo: real, hi: real)
    requires |cols| == 4
    requires RatedWithin(rows, cols, h, lo, hi)
    ensures forall x :: x in Scores(rows, cols, h) ==> lo <= x <= hi
  {
    if |rows| > 0 {
      var rest := rows[1..];
      assert RatedWithin(rest, cols, h, lo, hi) by {
        assert forall i :: 0 <= i < |rest| ==> rest[i] == rows[i + 1];
      }
      ScoresWithin(rest, cols, h, lo, hi);
      assert RowWithin(rows[0], cols, h, lo, hi);
      ScoresHead(rows, cols, h, lo, hi);
    }
  }

  /** The first row adds at most its own score, which lies on the scale. */
  lemma ScoresHead(rows: seq<Row>, cols: seq<nat>, h: Hooks, lo: real, hi: real)
    requires |cols| == 4 && |rows| > 0
    requires RowWithin(rows[0], cols, h, lo, hi)
    requires forall x :: x in Scores(rows[1..], cols, h) ==> lo <= x <= hi
    ensures forall x :: x in Scores(rows, cols, h) ==> lo <= x <= hi
  {
    match Ratings(rows[0], cols, h)
    case None =>
    case Some(f) => WeightedWithin(f, lo, hi);
  }

  /** A score lies on the scale of its ratings. */
  lemma WeightedWithin(f: seq<real>, lo: real, hi: real)
    requires |f| == 4 && forall j :: 0 <= j < 4 ==> lo <= f[j] <= hi
    ensures lo <= Weighted(f) <= hi
  {
    var m, n := Min(f), Max(f);
    assert m in f && n in f;
  }

  /** The outcome of the feedback analysis: the detected columns (as positions) and the
      rounded average score, if there is one. */
  datatype Report = Report(detected: seq<Option<nat>>, average: Option<real>)

  /** Every rating column was found. */
  predicate AllFound(d: seq<Option<nat>>) {
    |d| == 4 && forall i :: 0 <= i < 4 ==> d[i].Some?
  }

  function Positions(d: seq<Option<nat>>): (cols: seq<nat>)
    requires AllFound(d)
    ensures |cols| == 4 && forall i :: 0 <= i < 4 ==> d[i] == Some(cols[i])
  {
    seq(4, i requires 0 <= i < 4 => d[i].value)
  }

  /** `final_weighted_average`: the mean score rounded to two places, provided all four
      columns were found and at least one row has four numeric ratings. */
  function Analyse(f: Frame, h: Hooks): (r: Report)
    ensures r.detected == Detect(f.columns)
    ensures r.average.Some? <==>
      AllFound(r.detected)
      && exists i :: 0 <= i < |f.rows| && Ratings(f.rows[i], Positions(r.detected), h).Some?
    ensures r.average.Some? ==> r.average.value == Round2(Mean(Scores(f.rows, Positions(r.detected), h)))
  {
    var d := Detect(f.columns);
    if !AllFound(d) then Report(d, None)
    else
      var s := Scores(f.rows, Positions(d), h);
      if |s| == 0 then Report(d, None) else Report(d, Some(Round2(Mean(s))))
  }

  /** On a whole-number scale `lo..hi` (such as 1 to 5), the rounded average stays on the
      scale. */
  lemma AverageOnScale(f: Frame, h: Hooks, lo: int, hi: int)
    requires AllFound(Detect(f.columns))
    requires RatedWithin(f.rows, Positions(Detect(f.columns)), h, lo as real, hi as real)
    ensures Analyse(f, h).average.Some? ==>
      lo as real <= Analyse(f, h).average.value <= hi as real
  {
    var s := Scores(f.rows, Positions(Detect(f.columns)), h);
    ScoresWithin(f.rows, Positions(Detect(f.columns)), h, lo as real, hi as real);
    assert forall i :: 0 <= i < |s| ==> s[i] in s;
    if |s| > 0 {
      MeanWithin(s, lo as real, hi as real);
      Round2Within(Mean(s), lo * 100, hi * 100);
    }
  }

  /** A header without special spaces and without whitespace at its ends is clean. */
  lemma AlreadyClean(h: string)
    requires NoBreakSpace !in h && ZeroWidthNonJoiner !in h
    requires |h| > 0 ==> !IsSpace(h[0]) && !IsSpace(h[|h| - 1])
    ensures Clean(h) == h
  {
    CleanPlain(h);
    StripFixed(h);
  }
}

/** Worked examples of the feedback analysis. */
module FeedbackExamples {
  import opened Base
  import opened Tables
  import opened Hooks
  import opened Rounding
  import opened Stats
  import opened Feedback

  /** A respondent giving the same rating `v` throughout scores `v`. */
  lemma UniformRow(v: real, shown: string, h: Hooks)
    ensures Ratings([Num(v, shown), Num(v, shown), Num(v, shown), Num(v, shown)], [0, 1, 2, 3], h)
         == Some([v, v, v, v])
    ensures Weighted([v, v, v, v]) == v
  {
    var row := [Num(v, shown), Num(v, shown), Num(v, shown), Num(v, shown)];
    var r := Ratings(row, [0, 1, 2, 3], h);
    assert forall i :: 0 <= i < 4 ==> FloatOf(At(row, [0, 1, 2, 3][i]), h) == Some(v);
    assert r.value == [v, v, v, v];
  }

  /** Two respondents, one rating 4 throughout and one rating 2 throughout, average 3
      once the four rating columns are found in the first four places. */
  lemma TwoRespondentsExample(f: Frame, h: Hooks)
    requires Detect(f.columns) == [Some(0), Some(1), Some(2), Some(3)]
    requires f.rows == [[Num(4.0, "4"), Num(4.0, "4"), Num(4.0, "4"), Num(4.0, "4")],
                        [Num(2.0, "2"), Num(2.0, "2"), Num(2.0, "2"), Num(2.0, "2")]]
    ensures Analyse(f, h) == Report([Some(0), Some(1), Some(2), Some(3)], Some(3.0))
  {
    var p := Positions(Detect(f.columns));
    assert p == [0, 1, 2, 3];
    UniformRow(4.0, "4", h);
    UniformRow(2.0, "2", h);
    TwoScores(f.rows, p, h, [4.0, 4.0, 4.0, 4.0], [2.0, 2.0, 2.0, 2.0]);
    var s := Scores(f.rows, p, h);
    MeanOfTwo(s, 4.0, 2.0);
    assert Round2(3.0) == 3.0 by {
      Round2Exact(300);
    }
  }

  /** Two rows that both read as numbers give two scores, in row order. */
  lemma TwoScores(rows: seq<Row>, p: seq<nat>, h: Hooks, a: seq<real>, b: seq<real>)
    requires |p| == 4 && |rows| == 2
    requires Ratings(rows[0], p, h) == Some(a) && Ratings(rows[1], p, h) == Some(b)
    ensures Scores(rows, p, h) == [Weighted(a), Weighted(b)]
  {
    var x, y := rows[0], rows[1];
    ScoresCons(rows, p, h);
    TailOfPair(rows);
    ScoresOne(y, p, h);
    OwnRated(x, p, h, a);
    OwnRated(y, p, h, b);
  }

  lemma OwnRated(row: Row, p: seq<nat>, h: Hooks, a: seq<real>)
    requires |p| == 4 && Ratings(row, p, h) == Some(a)
    ensures Own(row, p, h) == [Weighted(a)]
  {
  }

  lemma TailOfPair<T>(s: seq<T>)
    requires |s| == 2
    ensures s[1..] == [s[1]]
  {
  }

  /** A first row that reads as numbers contributes its score ahead of the rest. */
  lemma ScoresOfRated(rows: seq<Row>, p: seq<nat>, h: Hooks, a: seq<real>)
    requires |p| == 4 && |rows| > 0 && Ratings(rows[0], p, h) == Some(a)
    ensures Scores(rows, p, h) == [Weighted(a)] + Scores(rows[1..], p, h)
  {
  }

  lemma MeanOfTwo(s: seq<real>, a: real, b: real)
    requires s == [a, b]
    ensures Mean(s) == (a + b) / 2.0
  {
    assert s[1..] == [b] && s[1..][1..] == [];
    assert Sum(s[1..]) == b + Sum(s[1..][1..]);
    assert Sum(s) == a + b;
  }
}
