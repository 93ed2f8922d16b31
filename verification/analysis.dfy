/** The analysis view end to end: the category check, the pre/post chart block (run only
    when both assessment uploads exist), the check that the category's own upload
    exists, the missing-assessment table and the feedback rating. Every exception the
    view's catch-all handler turns into a redirect is an `Err` here, except those the
    README lists under "Left out". */
module Analysis {
  import opened Base
  import opened Dict
  import opened Tables
  import opened Hooks
  import opened Join
  import Improvement
  import Idi
  import Grouped
  import Gain
  import Dates
  import Missing
  import Feedback
  import opened Text

  /** The categories the view accepts. */
  const Categories: seq<string> := ["feedback", "pre", "post"]

  /** The latest upload of each category for the schedule, if it has a file. */
  datatype Uploads = Uploads(pre: Option<Frame>, post: Option<Frame>, feedback: Option<Frame>)

  /** The upload the category analyses. */
  function Upload(u: Uploads, category: string): Option<Frame> {
    if category == "pre" then u.pre
    else if category == "post" then u.post
    else u.feedback
  }

  /** Both assessment uploads exist. */
  predicate Both(u: Uploads) {
    u.pre.Some? && u.post.Some?
  }

  /** The chart data of the pre/post block; `None` where the view leaves it unset. */
  datatype Charts = Charts(
    rates: Option<Dict<real>>,
    idi: Option<Dict<Idi.IdiEntry>>,
    grouped: Option<Dict<Grouped.GroupEntry>>,
    gain: Option<Dict<Gain.GainEntry>>)

  const NoCharts: Charts := Charts(None, None, None, None)

  /** The identifier column of the score analysis: the first header containing `pers no`
      in lower case. */
  function PersNo(f: Frame): (r: Option<nat>)
    ensures r.Some? ==> FirstHeader(f.columns, "pers no", r.value)
    ensures r.None? <==> !HasHeader(f.columns, "pers no")
  {
    FindColumn(f.columns, LowerContains("pers no"))
  }

  /** Some header contains `n` once lower-cased. */
  predicate HasHeader(cols: seq<string>, n: string) {
    exists j :: 0 <= j < |cols| && Contains(Lower(cols[j]), n)
  }

  /** Header `i` is the first that contains `n` once lower-cased. */
  predicate FirstHeader(cols: seq<string>, n: string, i: int) {
    && 0 <= i < |cols|
    && Contains(Lower(cols[i]), n)
    && forall j :: 0 <= j < i ==> !Contains(Lower(cols[j]), n)
  }

  /** Header `i` is the first that contains `n` once lower-cased and rid of spaces. */
  predicate FirstSpaceless(cols: seq<string>, n: string, i: int) {
    && 0 <= i < |cols|
    && Contains(RemoveBlanks(Lower(cols[i])), n)
    && forall j :: 0 <= j < i ==> !Contains(RemoveBlanks(Lower(cols[j])), n)
  }

  predicate HasSpaceless(cols: seq<string>, n: string) {
    exists j :: 0 <= j < |cols| && Contains(RemoveBlanks(Lower(cols[j])), n)
  }

  /** The merge needs the pre-assessment identifier header in the post-assessment upload
      too (otherwise pandas raises `KeyError`). */
  function PostId(pre: Frame, post: Frame, pid: nat): (r: Result<nat>)
    requires pid < |pre.columns|
    ensures r.Ok? <==> pre.columns[pid] in post.columns
    ensures r.Ok? ==> r.value < |post.columns| && post.columns[r.value] == pre.columns[pid]
  {
    match IndexOf(post.columns, pre.columns[pid])
    case None => Err(MissingColumn(pre.columns[pid]))
    case Some(q) => Ok(q)
  }

  /** Column `name` on both sides, for a merge on the identifier. */
  function ScoreColumns(pre: Frame, post: Frame, pid: nat, qid: nat, name: string): (r: Result<Columns>)
    ensures r.Ok? <==> name in pre.columns && name in post.columns
    ensures r.Ok? ==> r.value.preId == pid && r.value.postId == qid
    ensures r.Ok? ==> r.value.preScore < |pre.columns| && pre.columns[r.value.preScore] == name
    ensures r.Ok? ==> r.value.postScore < |post.columns| && post.columns[r.value.postScore] == name
  {
    match (IndexOf(pre.columns, name), IndexOf(post.columns, name))
    case (Some(a), Some(b)) => Ok(Columns(pid, qid, a, b))
    case _ => Err(MissingColumn(name))
  }

  /** A question column whose per-question rate can be computed. */
  predicate QuestionOk(pre: Frame, post: Frame, pid: nat, qid: nat, q: string) {
    var c := ScoreColumns(pre, post, pid, qid, q);
    c.Ok? && Improvement.AllComparable(Joined(pre, post, c.value))
  }

  /** The per-question loop over `qs`, adding to `d`: each question's improvement rate
      keyed by its display text. */
  function QuestionRates(d: Dict<real>, pre: Frame, post: Frame, pid: nat, qid: nat,
                         qs: seq<string>, h: Hooks): (r: Result<Dict<real>>)
    requires DistinctKeys(d)
    ensures r.Ok? <==> forall q :: q in qs ==> QuestionOk(pre, post, pid, qid, q)
    ensures r.Ok? ==> DistinctKeys(r.value)
    decreases |qs|
  {
    if |qs| == 0 then Ok(d)
    else
      assert forall q :: q in qs <==> q == qs[0] || q in qs[1..];
      match ScoreColumns(pre, post, pid, qid, qs[0])
      case Err(e) =>
        assert !QuestionOk(pre, post, pid, qid, qs[0]);
        Err(e)
      case Ok(c) =>
        match Improvement.ImprovementRate(Joined(pre, post, c))
        case Err(e) =>
          assert !QuestionOk(pre, post, pid, qid, qs[0]);
          Err(e)
        case Ok(rate) =>
          QuestionRates(Put(d, h.questionText(qs[0]), rate), pre, post, pid, qid, qs[1..], h)
  }

  /** What the view stores for a points column. */
  predicate IdiSound(e: Idi.IdiEntry) {
    && e.preCorrect <= e.preTotal && e.postCorrect <= e.postTotal
    && 0.0 <= e.preIdi <= 100.0 && 0.0 <= e.postIdi <= 100.0
    && -100.0 <= e.improvement <= 100.0
    && e.status == Idi.IdiStatus(e.preIdi, e.postIdi)
  }

  /** `points_col.replace('Points -', 'Que -')` through `extract_question_text`: the key
      of a points column. */
  function IdiKey(pc: string, h: Hooks): (k: string)
    ensures !Contains(pc, "Points -") ==> k == h.questionText(pc)
    ensures StartsWith(pc, "Points -") && !Contains(pc[8..], "Points -") ==>
      k == h.questionText("Que -" + pc[8..])
  {
    h.questionText(Text.Replace(pc, "Points -", "Que -"))
  }

  /** The IDI loop over the points columns `ps`, adding to `d`. */
  function IdiTable(d: Dict<Idi.IdiEntry>, pre: Frame, post: Frame, pid: nat, qid: nat,
                    ps: seq<string>, h: Hooks): (r: Result<Dict<Idi.IdiEntry>>)
    requires DistinctKeys(d) && forall i :: 0 <= i < |d| ==> IdiSound(d[i].1)
    ensures r.Ok? <==> forall p :: p in ps ==> p in pre.columns && p in post.columns
    ensures r.Ok? ==> DistinctKeys(r.value)
    ensures r.Ok? ==> forall i :: 0 <= i < |r.value| ==> IdiSound(r.value[i].1)
    decreases |ps|
  {
    if |ps| == 0 then Ok(d)
    else
      assert forall p :: p in ps <==> p == ps[0] || p in ps[1..];
      match IdiStep(d, pre, post, pid, qid, ps[0], h)
      case Err(e) => Err(e)
      case Ok(d') => IdiTable(d', pre, post, pid, qid, ps[1..], h)
  }

  /** The IDI entry of points column `p`: `Idi.Entry` of its join on the identifier. */
  function ColumnEntry(pre: Frame, post: Frame, pid: nat, qid: nat, p: string): Idi.IdiEntry
    requires p in pre.columns && p in post.columns
  {
    Idi.Entry(Joined(pre, post, ScoreColumns(pre, post, pid, qid, p).value))
  }

  /** One iteration of the IDI loop: `idi_data[key] = entry` for points column `p`. */
  function IdiStep(d: Dict<Idi.IdiEntry>, pre: Frame, post: Frame, pid: nat, qid: nat,
                   p: string, h: Hooks): (r: Result<Dict<Idi.IdiEntry>>)
    requires DistinctKeys(d) && forall i :: 0 <= i < |d| ==> IdiSound(d[i].1)
    ensures r.Ok? <==> p in pre.columns && p in post.columns
    ensures r.Ok? ==> DistinctKeys(r.value)
    ensures r.Ok? ==> forall i :: 0 <= i < |r.value| ==> IdiSound(r.value[i].1)
    ensures r.Ok? ==> forall k :: k in Keys(r.value) <==> k in Keys(d) || k == IdiKey(p, h)
    ensures r.Ok? ==> Get(r.value, IdiKey(p, h)) == Some(ColumnEntry(pre, post, pid, qid, p))
    ensures r.Ok? ==> forall k :: k != IdiKey(p, h) ==> Get(r.value, k) == Get(d, k)
  {
    match ScoreColumns(pre, post, pid, qid, p)
    case Err(e) => Err(e)
    case Ok(c) =>
      var e := Idi.Entry(Joined(pre, post, c));
      EntrySound(Joined(pre, post, c));
      PutSound(d, IdiKey(p, h), e);
      Ok(Put(d, IdiKey(p, h), e))
  }

  /** The keys of the points columns `ps`. */
  function IdiKeys(ps: seq<string>, h: Hooks): (ks: seq<string>)
    ensures |ks| == |ps| && forall j :: 0 <= j < |ps| ==> ks[j] == IdiKey(ps[j], h)
  {
    if |ps| == 0 then []
    else
      var rest := IdiKeys(ps[1..], h);
      assert forall j :: 1 <= j < |ps| ==> ps[j] == ps[1..][j - 1];
      [IdiKey(ps[0], h)] + rest
  }

  /** The IDI table has one key per points column, its question's display text. */
  lemma {:induction false} IdiTableKeys(d: Dict<Idi.IdiEntry>, pre: Frame, post: Frame, pid: nat,
                                        qid: nat, ps: seq<string>, h: Hooks)
    requires DistinctKeys(d) && forall i :: 0 <= i < |d| ==> IdiSound(d[i].1)
    requires IdiTable(d, pre, post, pid, qid, ps, h).Ok?
    ensures forall k :: k in Keys(IdiTable(d, pre, post, pid, qid, ps, h).value) <==>
      k in Keys(d) || k in IdiKeys(ps, h)
    decreases |ps|
  {
    if |ps| > 0 {
      IdiTableUnfold(d, pre, post, pid, qid, ps, h);
      var d' := IdiStep(d, pre, post, pid, qid, ps[0], h).value;
      IdiTableKeys(d', pre, post, pid, qid, ps[1..], h);
    }
  }

  /** No later points column in `ps` shares the key of column `j`, so its entry is the
      one that stays. */
  predicate LastWithKey(ps: seq<string>, j: int, h: Hooks)
    requires 0 <= j < |ps|
  {
    forall l :: j < l < |ps| ==> IdiKey(ps[l], h) != IdiKey(ps[j], h)
  }

  /** The keys of the later points columns are keys of the whole list. */
  lemma IdiKeysTail(ps: seq<string>, h: Hooks)
    requires |ps| > 0
    ensures forall k :: k in IdiKeys(ps[1..], h) ==> k in IdiKeys(ps, h)
  {
    var ks, rest := IdiKeys(ps, h), IdiKeys(ps[1..], h);
    forall k | k in rest ensures k in ks {
      var l :| 0 <= l < |rest| && rest[l] == k;
      assert ks[l + 1] == k;
    }
  }

  /** The last points column with a key is the last one with it in the later columns,
      and a first column that is last with its key has no key among the later columns. */
  lemma LastWithKeyTail(ps: seq<string>, j: int, h: Hooks)
    requires 0 <= j < |ps| && LastWithKey(ps, j, h)
    ensures j == 0 ==> IdiKey(ps[0], h) !in IdiKeys(ps[1..], h)
    ensures j > 0 ==> ps[j] == ps[1..][j - 1] && LastWithKey(ps[1..], j - 1, h)
  {
    var rest := IdiKeys(ps[1..], h);
    if j == 0 {
      forall l | 0 <= l < |rest| ensures rest[l] != IdiKey(ps[0], h) {
        assert rest[l] == IdiKey(ps[l + 1], h);
      }
    } else {
      forall l | j - 1 < l < |ps| - 1 ensures IdiKey(ps[1..][l], h) != IdiKey(ps[1..][j - 1], h) {
        assert ps[1..][l] == ps[l + 1];
      }
    }
  }

  /** Each key of the IDI table holds the entry of the last points column with that key;
      every other key keeps its old value. */
  lemma {:induction false} IdiTableValues(d: Dict<Idi.IdiEntry>, pre: Frame, post: Frame, pid: nat,
                                          qid: nat, ps: seq<string>, h: Hooks)
    requires DistinctKeys(d) && forall i :: 0 <= i < |d| ==> IdiSound(d[i].1)
    requires IdiTable(d, pre, post, pid, qid, ps, h).Ok?
    ensures forall j :: 0 <= j < |ps| && LastWithKey(ps, j, h) ==>
      ps[j] in pre.columns && ps[j] in post.columns
      && Get(IdiTable(d, pre, post, pid, qid, ps, h).value, IdiKey(ps[j], h))
         == Some(ColumnEntry(pre, post, pid, qid, ps[j]))
    ensures forall k :: k !in IdiKeys(ps, h) ==>
      Get(IdiTable(d, pre, post, pid, qid, ps, h).value, k) == Get(d, k)
    decreases |ps|
  {
    if |ps| > 0 {
      IdiTableUnfold(d, pre, post, pid, qid, ps, h);
      var d' := IdiStep(d, pre, post, pid, qid, ps[0], h).value;
      var t := IdiTable(d, pre, post, pid, qid, ps, h).value;
      assert t == IdiTable(d', pre, post, pid, qid, ps[1..], h).value;
      IdiTableValues(d', pre, post, pid, qid, ps[1..], h);
      IdiKeysTail(ps, h);
      assert IdiKeys(ps, h)[0] == IdiKey(ps[0], h);
      forall j | 0 <= j < |ps| && LastWithKey(ps, j, h)
        ensures ps[j] in pre.columns && ps[j] in post.columns
        ensures Get(t, IdiKey(ps[j], h)) == Some(ColumnEntry(pre, post, pid, qid, ps[j]))
      {
        LastWithKeyTail(ps, j, h);
      }
    }
  }

  /** A successful IDI loop is a successful first step followed by the rest of the loop. */
  lemma IdiTableUnfold(d: Dict<Idi.IdiEntry>, pre: Frame, post: Frame, pid: nat,
                       qid: nat, ps: seq<string>, h: Hooks)
    requires DistinctKeys(d) && forall i :: 0 <= i < |d| ==> IdiSound(d[i].1)
    requires |ps| > 0 && IdiTable(d, pre, post, pid, qid, ps, h).Ok?
    ensures IdiStep(d, pre, post, pid, qid, ps[0], h).Ok?
    ensures IdiTable(d, pre, post, pid, qid, ps, h)
         == IdiTable(IdiStep(d, pre, post, pid, qid, ps[0], h).value, pre, post, pid, qid, ps[1..], h)
  {
  }

  /** Every entry the view computes is sound. */
  lemma EntrySound(ps: seq<(Cell, Cell)>)
    ensures IdiSound(Idi.Entry(ps))
  {
  }

  /** Storing a sound entry keeps every entry sound. */
  lemma PutSound(d: Dict<Idi.IdiEntry>, k: string, e: Idi.IdiEntry)
    requires forall i :: 0 <= i < |d| ==> IdiSound(d[i].1)
    requires IdiSound(e)
    ensures forall i :: 0 <= i < |Put(d, k, e)| ==> IdiSound(Put(d, k, e)[i].1)
  {
    forall i | 0 <= i < |Put(d, k, e)| ensures IdiSound(Put(d, k, e)[i].1) {
      PutValue(d, k, e, i);
    }
  }

  /** Every value of `d[k] = v` is `v` or an old value. */
  lemma PutValue<V>(d: Dict<V>, k: string, v: V, i: nat)
    requires i < |Put(d, k, v)|
    ensures Put(d, k, v)[i].1 == v || (i < |d| && Put(d, k, v)[i].1 == d[i].1)
  {
  }

  /** The total-points columns: the first header equal to `total points` after strip and
      lower-casing, on each side. The merged frame only has `<name>_pre` and
      `<name>_post` when both headers are the same text; otherwise the lookup raises. */
  function TotalColumns(pre: Frame, post: Frame, pid: nat, qid: nat): (r: Result<Columns>)
    ensures r.Ok? <==>
      var a, b := FindColumn(pre.columns, StripLowerEquals("total points")),
                  FindColumn(post.columns, StripLowerEquals("total points"));
      a.Some? && b.Some? && pre.columns[a.value] == post.columns[b.value]
    ensures r.Ok? ==> r.value.preId == pid && r.value.postId == qid
    ensures r.Ok? ==>
      r.value.preScore == FindColumn(pre.columns, StripLowerEquals("total points")).value
    ensures r.Ok? ==>
      r.value.postScore == FindColumn(post.columns, StripLowerEquals("total points")).value
  {
    match (FindColumn(pre.columns, StripLowerEquals("total points")),
           FindColumn(post.columns, StripLowerEquals("total points")))
    case (Some(a), Some(b)) =>
      if pre.columns[a] == post.columns[b] then Ok(Columns(pid, qid, a, b))
      else Err(MissingColumn(pre.columns[a] + "_pre"))
    case _ => Err(MissingColumn("total points"))
  }

  /** The start-time columns, first header containing `start time` on each side. */
  function StartTimes(pre: Frame, post: Frame): (r: Option<(nat, nat)>)
    ensures r.Some? <==> HasHeader(pre.columns, "start time") && HasHeader(post.columns, "start time")
    ensures r.Some? ==> FirstHeader(pre.columns, "start time", r.value.0)
    ensures r.Some? ==> FirstHeader(post.columns, "start time", r.value.1)
  {
    match (FindColumn(pre.columns, LowerContains("start time")),
           FindColumn(post.columns, LowerContains("start time")))
    case (Some(a), Some(b)) => Some((a, b))
    case _ => None
  }

  /** The per-date split of the total-points merge: dates from the start-time columns,
      faculty names from the first pre-assessment header containing `faculty name`. */
  function SplitOf(pre: Frame, post: Frame, c: Columns, st: (nat, nat), h: Hooks): (sp: Grouped.Split)
    ensures sp.pre == pre && sp.post == post && sp.c == c
    ensures sp.faculty.Some? ==> FirstHeader(pre.columns, "faculty name", sp.faculty.value)
    ensures sp.faculty.None? <==> !HasHeader(pre.columns, "faculty name")
    ensures |sp.preDates| == |pre.rows| && |sp.postDates| == |post.rows|
    ensures forall i :: 0 <= i < |pre.rows| ==> sp.preDates[i] == Dates.ExtractDate(At(pre.rows[i], st.0), h)
    ensures forall i :: 0 <= i < |post.rows| ==> sp.postDates[i] == Dates.ExtractDate(At(post.rows[i], st.1), h)
  {
    Grouped.Split(pre, post, c, FindColumn(pre.columns, LowerContains("faculty name")),
                  Dates.DatesOf(pre, st.0, h), Dates.DatesOf(post, st.1, h))
  }

  /** Grouped improvement and normalized gain, computed together or not at all. */
  function DateCharts(pre: Frame, post: Frame, c: Columns, h: Hooks)
    : (r: Result<(Option<Dict<Grouped.GroupEntry>>, Option<Dict<Gain.GainEntry>>)>)
    ensures r.Ok? ==> (r.value.0.Some? <==> StartTimes(pre, post).Some?)
    ensures r.Ok? ==> (r.value.1.Some? <==> StartTimes(pre, post).Some?)
    ensures r.Ok? && r.value.0.Some? ==> Grouped.Shaped(r.value.0.value)
    ensures r.Ok? && r.value.1.Some? ==>
      Gain.AllGainOk(r.value.1.value) && DistinctKeys(r.value.1.value)
    ensures StartTimes(pre, post).None? ==> r == Ok((None, None))
    ensures r.Ok? <==> (StartTimes(pre, post).None?
      || (Grouped.GroupedImprovement(SplitOf(pre, post, c, StartTimes(pre, post).value, h)).Ok?
          && Gain.NormalizedGain(SplitOf(pre, post, c, StartTimes(pre, post).value, h)).Ok?))
    ensures r.Ok? && StartTimes(pre, post).Some? ==>
      r.value.0 == Some(Grouped.GroupedImprovement(SplitOf(pre, post, c, StartTimes(pre, post).value, h)).value)
      && r.value.1 == Some(Gain.NormalizedGain(SplitOf(pre, post, c, StartTimes(pre, post).value, h)).value)
  {
    match StartTimes(pre, post)
    case None => Ok((None, None))
    case Some(st) =>
      var sp := SplitOf(pre, post, c, st, h);
      match Grouped.GroupedImprovement(sp)
      case Err(e) => Err(e)
      case Ok(g) =>
        match Gain.NormalizedGain(sp)
        case Err(e) => Err(e)
        case Ok(n) => Ok((Some(g), Some(n)))
  }

  /** The points columns both uploads have, by their detection. */
  function MatchingPoints(pre: Frame, post: Frame, h: Hooks): (ps: seq<string>)
    ensures forall p :: p in ps <==> p in h.detect(pre.columns).1 && p in h.detect(post.columns).1
  {
    Common(h.detect(pre.columns).1, h.detect(post.columns).1)
  }

  /** The question columns both uploads have, by their detection. */
  function MatchingQuestions(pre: Frame, post: Frame, h: Hooks): (qs: seq<string>)
    ensures forall q :: q in qs <==> q in h.detect(pre.columns).0 && q in h.detect(post.columns).0
  {
    Common(h.detect(pre.columns).0, h.detect(post.columns).0)
  }

  /** The first of `qs` that is not a header in `cols`. */
  function FirstMissing(qs: seq<string>, cols: seq<string>): (r: Option<string>)
    ensures r.None? <==> forall q :: q in qs ==> q in cols
    ensures r.Some? ==> r.value in qs && r.value !in cols
  {
    if |qs| == 0 then None
    else if qs[0] !in cols then Some(qs[0])
    else
      assert forall q :: q in qs <==> q == qs[0] || q in qs[1..];
      FirstMissing(qs[1..], cols)
  }

  /** `pre_df[[pers_no_col] + matching_questions]`, then the same on the post side: every
      question column is selected at once, so a missing one raises `KeyError` before any
      score is compared, and a column missing before the merge is reported first. */
  function SelectQuestions(pre: Frame, post: Frame, qs: seq<string>): (r: Result<()>)
    ensures r.Ok? <==> forall q :: q in qs ==> q in pre.columns && q in post.columns
    ensures r.Err? ==> exists q :: q in qs && r.error == MissingColumn(q)
    ensures (exists q :: q in qs && q !in pre.columns) ==>
      r.Err? && r.error.MissingColumn? && r.error.name !in pre.columns
  {
    match FirstMissing(qs, pre.columns)
    case Some(q) => Err(MissingColumn(q))
    case None =>
      match FirstMissing(qs, post.columns)
      case Some(q) => Err(MissingColumn(q))
      case None => Ok(())
  }

  /** Lines 69-93 for the question columns: nothing without matching questions, otherwise
      the selection of every question column and then each question's rate. */
  function CheckedRates(pre: Frame, post: Frame, pid: nat, qid: nat, qs: seq<string>, h: Hooks)
    : (r: Result<Dict<real>>)
    ensures r.Ok? <==> forall q :: q in qs ==> QuestionOk(pre, post, pid, qid, q)
    ensures SelectQuestions(pre, post, qs).Err? ==> r == Err(SelectQuestions(pre, post, qs).error)
  {
    if |qs| == 0 then Ok([])
    else match SelectQuestions(pre, post, qs)
      case Err(e) =>
        var q :| q in qs && (q !in pre.columns || q !in post.columns);
        assert !QuestionOk(pre, post, pid, qid, q);
        Err(e)
      case Ok(_) => QuestionRates([], pre, post, pid, qid, qs, h)
  }

  /** The per-question rates (checked, then discarded) and the IDI table: one entry per
      matching points column, keyed by its question's display text. */
  function PerColumn(pre: Frame, post: Frame, pid: nat, qid: nat, h: Hooks)
    : (r: Result<Option<Dict<Idi.IdiEntry>>>)
    ensures r.Ok? <==>
      (forall q :: q in MatchingQuestions(pre, post, h) ==> QuestionOk(pre, post, pid, qid, q))
      && forall p :: p in MatchingPoints(pre, post, h) ==> p in pre.columns && p in post.columns
    ensures r.Ok? ==> (r.value.Some? <==> |MatchingPoints(pre, post, h)| > 0)
    ensures r.Ok? && r.value.Some? ==> DistinctKeys(r.value.value)
    ensures r.Ok? && r.value.Some? ==>
      forall i :: 0 <= i < |r.value.value| ==> IdiSound(r.value.value[i].1)
    ensures r.Ok? && r.value.Some? ==>
      forall k :: k in Keys(r.value.value) <==> k in IdiKeys(MatchingPoints(pre, post, h), h)
    ensures r.Ok? && r.value.Some? ==>
      var ps := MatchingPoints(pre, post, h);
      forall j :: 0 <= j < |ps| && LastWithKey(ps, j, h) ==>
        ps[j] in pre.columns && ps[j] in post.columns
        && Get(r.value.value, IdiKey(ps[j], h)) == Some(ColumnEntry(pre, post, pid, qid, ps[j]))
    ensures SelectQuestions(pre, post, MatchingQuestions(pre, post, h)).Err? ==>
      r == Err(SelectQuestions(pre, post, MatchingQuestions(pre, post, h)).error)
  {
    var questions := MatchingQuestions(pre, post, h);
    var points := MatchingPoints(pre, post, h);
    var perQuestion := CheckedRates(pre, post, pid, qid, questions, h);
    if perQuestion.Err? then Err(perQuestion.error)
    else if |points| > 0 then
      match IdiTable([], pre, post, pid, qid, points, h)
      case Err(e) => Err(e)
      case Ok(t) =>
        IdiTableKeys([], pre, post, pid, qid, points, h);
        IdiTableValues([], pre, post, pid, qid, points, h);
        Ok(Some(t))
    else Ok(None)
  }

  /** The total-points rate, which replaces the per-question rates, and the charts by
      date. */
  function Totals(pre: Frame, post: Frame, pid: nat, qid: nat, h: Hooks)
    : (r: Result<(real, Option<Dict<Grouped.GroupEntry>>, Option<Dict<Gain.GainEntry>>)>)
    ensures r.Ok? ==> TotalColumns(pre, post, pid, qid).Ok?
    ensures r.Ok? ==>
      Improvement.ImprovementRate(Joined(pre, post, TotalColumns(pre, post, pid, qid).value)) == Ok(r.value.0)
    ensures r.Ok? ==> 0.0 <= r.value.0 <= 100.0
    ensures r.Ok? ==> (r.value.1.Some? <==> StartTimes(pre, post).Some?)
    ensures r.Ok? ==> (r.value.2.Some? <==> StartTimes(pre, post).Some?)
    ensures r.Ok? && r.value.1.Some? ==> Grouped.Shaped(r.value.1.value)
    ensures r.Ok? <==> (TotalColumns(pre, post, pid, qid).Ok?
      && Improvement.ImprovementRate(Joined(pre, post, TotalColumns(pre, post, pid, qid).value)).Ok?
      && DateCharts(pre, post, TotalColumns(pre, post, pid, qid).value, h).Ok?)
    ensures r.Ok? ==>
      (r.value.1, r.value.2) == DateCharts(pre, post, TotalColumns(pre, post, pid, qid).value, h).value
  {
    match TotalColumns(pre, post, pid, qid)
    case Err(e) => Err(e)
    case Ok(c) =>
      match Improvement.ImprovementRate(Joined(pre, post, c))
      case Err(e) => Err(e)
      case Ok(rate) =>
        match DateCharts(pre, post, c, h)
        case Err(e) => Err(e)
        case Ok(dated) => Ok((rate, dated.0, dated.1))
  }

  /** The pre/post block once the identifier column `pid` is known. Whatever the
      per-question loop computed, the rates reported are the total-points rate alone. */
  function Scored(pre: Frame, post: Frame, pid: nat, h: Hooks): (r: Result<Charts>)
    requires pid < |pre.columns|
    ensures r.Ok? ==> pre.columns[pid] in post.columns
    ensures r.Ok? ==> r.value.rates.Some? && Keys(r.value.rates.value) == ["Total Points"]
    ensures r.Ok? ==> 0.0 <= r.value.rates.value[0].1 <= 100.0
    ensures r.Ok? ==> (r.value.idi.Some? <==> |MatchingPoints(pre, post, h)| > 0)
    ensures r.Ok? ==> (r.value.grouped.Some? <==> StartTimes(pre, post).Some?)
    ensures r.Ok? ==> (r.value.gain.Some? <==> StartTimes(pre, post).Some?)
    ensures r.Ok? <==> PostId(pre, post, pid).Ok? && ScoredAt(pre, post, pid, PostId(pre, post, pid).value, h).Ok?
    ensures r.Ok? ==> r == ScoredAt(pre, post, pid, PostId(pre, post, pid).value, h)
    ensures r.Ok? ==>
      var c := TotalColumns(pre, post, pid, PostId(pre, post, pid).value);
      c.Ok? && Improvement.ImprovementRate(Joined(pre, post, c.value)) == Ok(r.value.rates.value[0].1)
  {
    match PostId(pre, post, pid)
    case Err(e) => Err(e)
    case Ok(qid) => ScoredAt(pre, post, pid, qid, h)
  }

  /** The block's charts once both identifier columns are known. */
  function ScoredAt(pre: Frame, post: Frame, pid: nat, qid: nat, h: Hooks): (r: Result<Charts>)
    ensures r.Ok? <==> PerColumn(pre, post, pid, qid, h).Ok? && Totals(pre, post, pid, qid, h).Ok?
    ensures r.Ok? ==> r.value.idi == PerColumn(pre, post, pid, qid, h).value
    ensures r.Ok? ==> r.value.rates == Some([("Total Points", Totals(pre, post, pid, qid, h).value.0)])
    ensures r.Ok? ==> r.value.grouped == Totals(pre, post, pid, qid, h).value.1
    ensures r.Ok? ==> r.value.gain == Totals(pre, post, pid, qid, h).value.2
    ensures r.Ok? ==>
      var c := TotalColumns(pre, post, pid, qid);
      c.Ok? && Improvement.ImprovementRate(Joined(pre, post, c.value)) == Ok(r.value.rates.value[0].1)
    ensures r.Ok? ==> r.value.rates.Some? && Keys(r.value.rates.value) == ["Total Points"]
    ensures r.Ok? ==> 0.0 <= r.value.rates.value[0].1 <= 100.0
    ensures r.Ok? ==> (r.value.idi.Some? <==> |MatchingPoints(pre, post, h)| > 0)
    ensures r.Ok? ==> (r.value.grouped.Some? <==> StartTimes(pre, post).Some?)
    ensures r.Ok? ==> (r.value.gain.Some? <==> StartTimes(pre, post).Some?)
  {
    match PerColumn(pre, post, pid, qid, h)
    case Err(e) => Err(e)
    case Ok(idi) => WithTotals(pre, post, pid, qid, h, idi)
  }

  /** The charts around an IDI table already computed: the total-points rate as the only
      rate, and the charts by date. */
  function WithTotals(pre: Frame, post: Frame, pid: nat, qid: nat, h: Hooks,
                      idi: Option<Dict<Idi.IdiEntry>>): (r: Result<Charts>)
    ensures r.Ok? <==> Totals(pre, post, pid, qid, h).Ok?
    ensures r.Ok? ==> r.value.idi == idi
    ensures r.Ok? ==> r.value.rates == Some([("Total Points", Totals(pre, post, pid, qid, h).value.0)])
    ensures r.Ok? ==> r.value.grouped == Totals(pre, post, pid, qid, h).value.1
    ensures r.Ok? ==> r.value.gain == Totals(pre, post, pid, qid, h).value.2
    ensures r.Ok? ==> r.value.rates.Some? && Keys(r.value.rates.value) == ["Total Points"]
    ensures r.Ok? ==> 0.0 <= r.value.rates.value[0].1 <= 100.0
    ensures r.Ok? ==> (r.value.grouped.Some? <==> StartTimes(pre, post).Some?)
    ensures r.Ok? ==> (r.value.gain.Some? <==> StartTimes(pre, post).Some?)
  {
    match Totals(pre, post, pid, qid, h)
    case Err(e) => Err(e)
    case Ok(t) =>
      assert Keys([("Total Points", t.0)]) == ["Total Points"];
      Ok(Charts(Some([("Total Points", t.0)]), idi, t.1, t.2))
  }

  /** The pre/post block: nothing without an identifier column, otherwise the scored
      charts. */
  function PrePost(pre: Frame, post: Frame, h: Hooks): (r: Result<Charts>)
    ensures PersNo(pre).None? ==> r == Ok(NoCharts)
    ensures r.Ok? ==> (r.value.rates.Some? <==> PersNo(pre).Some?)
    ensures r.Ok? <==> PersNo(pre).None? || Scored(pre, post, PersNo(pre).value, h).Ok?
    ensures PersNo(pre).Some? ==> r == Scored(pre, post, PersNo(pre).value, h)
  {
    match PersNo(pre)
    case None => Ok(NoCharts)
    case Some(pid) => Scored(pre, post, pid, h)
  }

  /** The identifier and name columns of the missing-assessment table. */
  function MissingLookup(f: Frame): (l: Missing.Lookup)
    ensures l.id.Some? ==> FirstSpaceless(f.columns, "persno", l.id.value)
    ensures l.id.None? <==> !HasSpaceless(f.columns, "persno")
    ensures l.name.Some? ==> FirstSpaceless(f.columns, "employeename", l.name.value)
    ensures l.name.None? <==> !HasSpaceless(f.columns, "employeename")
  {
    Missing.Lookup(FindColumn(f.columns, SpacelessContains("persno")),
                   FindColumn(f.columns, SpacelessContains("employeename")))
  }

  /** Everything the view renders from the data. */
  datatype Outcome = Outcome(
    charts: Charts,
    missing: seq<Missing.MissingRow>,
    feedback: Option<Feedback.Report>)

  /** The pre/post block runs for an assessment category with both uploads. */
  predicate RunsPrePost(category: string, u: Uploads) {
    (category == "pre" || category == "post") && Both(u)
  }

  /** `analysis(request, category, schedule_id)`. */
  function Analysis(category: string, u: Uploads, h: Hooks): (r: Result<Outcome>)
    ensures category !in Categories ==> r == Err(InvalidCategory(category))
    ensures category in Categories && Upload(u, category).None? ==>
      r == Err(NoUploadedFile(category))
    ensures r.Ok? <==>
      category in Categories && Upload(u, category).Some?
      && (RunsPrePost(category, u) ==> PrePost(u.pre.value, u.post.value, h).Ok?)
    ensures r.Ok? && !RunsPrePost(category, u) ==> r.value.charts == NoCharts && r.value.missing == []
    ensures r.Ok? && RunsPrePost(category, u) ==> r.value.charts == PrePost(u.pre.value, u.post.value, h).value
    ensures r.Ok? && RunsPrePost(category, u) ==>
      r.value.missing == Missing.MissingTable(u.pre.value, MissingLookup(u.pre.value),
                                              u.post.value, MissingLookup(u.post.value))
    ensures r.Ok? ==> (r.value.feedback.Some? <==> category == "feedback")
    ensures r.Ok? && category == "feedback" ==> r.value.feedback == Some(Feedback.Analyse(u.feedback.value, h))
  {
    if category !in Categories then Err(InvalidCategory(category))
    else
      var charts :- if RunsPrePost(category, u) then PrePost(u.pre.value, u.post.value, h)
                    else Ok(NoCharts);
      match Upload(u, category)
      case None => Err(NoUploadedFile(category))
      case Some(f) =>
        var missing := if RunsPrePost(category, u) then
                         Missing.MissingTable(u.pre.value, MissingLookup(u.pre.value),
                                              u.post.value, MissingLookup(u.post.value))
                       else [];
        var fb := if category == "feedback" then Some(Feedback.Analyse(f, h)) else None;
        Ok(Outcome(charts, missing, fb))
  }
}
