/** Grouped improvement on total points: one `Combined` entry over every joined
    student, then one entry per extracted date, in ascending date order, for the dates
    whose own join has at least one student with both scores. */
module Grouped {
  import opened Base
  import opened Dict
  import opened Tables
  import opened Text
  import opened Join
  import opened Improvement
  import opened Rounding
  import opened Sorting
  import opened Dates
  import opened Counting

  datatype GroupEntry = GroupEntry(
    rate: real,
    validStudents: nat,
    facultyNames: seq<Cell>,
    date: string,
    improvementCount: nat,
    totalStudents: nat)

  /** What every entry satisfies. */
  predicate EntryOk(e: GroupEntry) {
    && e.improvementCount <= e.totalStudents
    && e.totalStudents == e.validStudents
    && 0.0 <= e.rate <= 100.0
    && Distinct(e.facultyNames)
    && forall x :: x in e.facultyNames ==> !x.Null?
  }

  /** The faculty cell of the pre-assessment row of every valid joined pair. */
  function ValidFaculty(ps: seq<(Cell, Cell)>, fs: seq<Cell>): (r: seq<Cell>)
    requires |ps| == |fs|
    ensures forall x :: x in r ==> exists k :: 0 <= k < |ps| && Valid(ps[k]) && fs[k] == x
    ensures forall k :: 0 <= k < |ps| && Valid(ps[k]) ==> fs[k] in r
  {
    if |ps| == 0 then []
    else
      var rest := ValidFaculty(ps[1..], fs[1..]);
      assert forall k :: 0 <= k < |ps| - 1 ==> ps[1..][k] == ps[k + 1] && fs[1..][k] == fs[k + 1];
      if Valid(ps[0]) then [fs[0]] + rest else rest
  }

  /** The faculty cell of the pre-assessment row of every joined pair, in join order. */
  function PairFaculty(pre: Frame, post: Frame, c: Columns, fc: nat): (fs: seq<Cell>)
    ensures |fs| == |Joined(pre, post, c)|
    ensures forall k :: 0 <= k < |fs| ==>
      fs[k] == CellOf(pre, JoinPairs(IdKeys(pre, c.preId), IdKeys(post, c.postId))[k].0, fc)
  {
    var pairs := JoinPairs(IdKeys(pre, c.preId), IdKeys(post, c.postId));
    seq(|pairs|, k requires 0 <= k < |pairs| => CellOf(pre, pairs[k].0, fc))
  }

  /** `x` is the faculty cell of some valid joined pair. */
  predicate FacultyOfValid(pre: Frame, post: Frame, c: Columns, fc: nat, x: Cell) {
    exists k :: 0 <= k < |Joined(pre, post, c)|
      && Valid(Joined(pre, post, c)[k]) && PairFaculty(pre, post, c, fc)[k] == x
  }

  /** `merged.loc[valid, faculty_col].dropna().unique().tolist()`, or nothing without a
      faculty column: each non-empty faculty cell of a valid joined pair, once. */
  function FacultyNames(pre: Frame, post: Frame, c: Columns, faculty: Option<nat>)
    : (r: seq<Cell>)
    ensures Distinct(r) && forall x :: x in r ==> !x.Null?
    ensures faculty.None? ==> r == []
    ensures faculty.Some? ==> forall x :: x in r <==> !x.Null? && FacultyOfValid(pre, post, c, faculty.value, x)
  {
    match faculty
    case None => []
    case Some(fc) =>
      Unique(DropNull(ValidFaculty(Joined(pre, post, c), PairFaculty(pre, post, c, fc))))
  }

  /** Some joined student has a score on both sides. */
  predicate AnyValid(ps: seq<(Cell, Cell)>) {
    exists k :: 0 <= k < |ps| && Valid(ps[k])
  }

  /** The entry of one group of students, labelled `date`. */
  function Summary(pre: Frame, post: Frame, c: Columns, faculty: Option<nat>, date: string)
    : (r: Result<GroupEntry>)
    ensures r.Ok? <==> AllComparable(Joined(pre, post, c))
    ensures r.Ok? ==> EntryOk(r.value) && r.value.date == date
    ensures r.Ok? ==> (r.value.validStudents > 0 <==> AnyValid(Joined(pre, post, c)))
    ensures r.Ok? ==> r.value.validStudents == Count(Joined(pre, post, c), Valid)
    ensures r.Ok? ==> r.value.improvementCount == Count(Joined(pre, post, c), ValidImproved)
    ensures r.Ok? ==> Ok(r.value.rate) == ImprovementRate(Joined(pre, post, c))
    ensures r.Ok? && r.value.validStudents == 0 ==> r.value.rate == 0.0
    ensures r.Ok? ==> r.value.facultyNames == FacultyNames(pre, post, c, faculty)
  {
    var t :- TallyOf(Joined(pre, post, c));
    Round2Percentage(Rate(t));
    Ok(GroupEntry(Round2(Rate(t)), t.valid, FacultyNames(pre, post, c, faculty), date,
                  t.improved, t.valid))
  }

  /** `sorted(set(pre['__date'].dropna()) | set(post['__date'].dropna()))`. */
  function AllDates(preDates: seq<Option<string>>, postDates: seq<Option<string>>)
    : (r: seq<string>)
    ensures StrictlySorted(r)
    ensures forall d :: d in r <==> Some(d) in preDates || Some(d) in postDates
  {
    SortDistinct(Present(preDates) + Present(postDates))
  }

  /** The students of one date on each side. */
  datatype Split = Split(
    pre: Frame, post: Frame, c: Columns, faculty: Option<nat>,
    preDates: seq<Option<string>>, postDates: seq<Option<string>>)
  {
    function DateJoin(d: string): seq<(Cell, Cell)> {
      Joined(Restrict(pre, preDates, d), Restrict(post, postDates, d), c)
    }

    function DateSummary(d: string): Result<GroupEntry> {
      Summary(Restrict(pre, preDates, d), Restrict(post, postDates, d), c, faculty, d)
    }
  }

  /** The shape of the result: `Combined` first, every entry sound and labelled by its
      key, unique keys, and after `Combined` only dates with students, in ascending order. */
  predicate Shaped(g: Dict<GroupEntry>) {
    && |g| > 0 && g[0].0 == "Combined"
    && DistinctKeys(g)
    && (forall i :: 0 <= i < |g| ==> EntryOk(g[i].1) && g[i].1.date == g[i].0)
    && (forall i :: 1 <= i < |g| ==> g[i].1.validStudents > 0)
    && (forall i, j :: 1 <= i < j < |g| ==> Less(g[i].0, g[j].0))
  }

  /** Every key after `Combined` comes before every remaining date. */
  predicate Below(g: Dict<GroupEntry>, ds: seq<string>) {
    forall i, j :: 1 <= i < |g| && 0 <= j < |ds| ==> Less(g[i].0, ds[j])
  }

  /** One iteration: the date's entry is stored only when it has a valid student. */
  function Next(g: Dict<GroupEntry>, d: string, e: GroupEntry): Dict<GroupEntry> {
    if e.validStudents > 0 then Put(g, d, e) else g
  }

  /** The loop over the dates: each date with a valid student gets its entry. */
  function AddDates(g: Dict<GroupEntry>, ds: seq<string>, sp: Split): (r: Result<Dict<GroupEntry>>)
    requires Shaped(g) && StrictlySorted(ds) && Below(g, ds)
    ensures r.Ok? <==> forall d :: d in ds ==> AllComparable(sp.DateJoin(d))
    ensures r.Ok? ==> Shaped(r.value)
    decreases |ds|
  {
    if |ds| == 0 then Ok(g)
    else
      var d := ds[0];
      assert forall x :: x in ds <==> x == d || x in ds[1..];
      assert sp.DateSummary(d).Ok? <==> AllComparable(sp.DateJoin(d));
      match sp.DateSummary(d)
      case Err(e) => Err(e)
      case Ok(e) =>
        NextShaped(g, d, e, ds);
        AddDates(Next(g, d, e), ds[1..], sp)
  }

  /** The dates the loop adds are exactly those with a valid student. */
  lemma {:induction false} AddDatesKeys(g: Dict<GroupEntry>, ds: seq<string>, sp: Split)
    requires Shaped(g) && StrictlySorted(ds) && Below(g, ds)
    requires AddDates(g, ds, sp).Ok?
    ensures forall k :: k in Keys(AddDates(g, ds, sp).value) <==>
      k in Keys(g) || (k in ds && AnyValid(sp.DateJoin(k)))
    decreases |ds|
  {
    if |ds| > 0 {
      var d := ds[0];
      var e := sp.DateSummary(d).value;
      NextShaped(g, d, e, ds);
      NextKeys(g, d, e);
      assert e.validStudents > 0 <==> AnyValid(sp.DateJoin(d));
      AddDatesKeys(Next(g, d, e), ds[1..], sp);
      assert forall x :: x in ds <==> x == d || x in ds[1..];
    }
  }

  /** The loop stores each date's own summary when the date has a valid student, and
      leaves every other key as it was. */
  lemma {:induction false} AddDatesValues(g: Dict<GroupEntry>, ds: seq<string>, sp: Split)
    requires Shaped(g) && StrictlySorted(ds) && Below(g, ds)
    requires AddDates(g, ds, sp).Ok?
    ensures forall d :: d in ds && AnyValid(sp.DateJoin(d)) ==>
      sp.DateSummary(d).Ok? && Get(AddDates(g, ds, sp).value, d) == Some(sp.DateSummary(d).value)
    ensures forall k :: !(k in ds && AnyValid(sp.DateJoin(k))) ==>
      Get(AddDates(g, ds, sp).value, k) == Get(g, k)
    decreases |ds|
  {
    if |ds| > 0 {
      var d := ds[0];
      var e := sp.DateSummary(d).value;
      NextShaped(g, d, e, ds);
      assert e.validStudents > 0 <==> AnyValid(sp.DateJoin(d));
      AddDatesValues(Next(g, d, e), ds[1..], sp);
      assert forall x :: x in ds <==> x == d || x in ds[1..];
      assert d !in ds[1..] by {
        LessIrreflexive(d);
      }
    }
  }

  lemma NextKeys(g: Dict<GroupEntry>, d: string, e: GroupEntry)
    ensures forall k :: k in Keys(Next(g, d, e)) <==> k in Keys(g) || (k == d && e.validStudents > 0)
  {
  }

  /** An iteration keeps the shape, and the remaining dates stay above the stored ones. */
  lemma NextShaped(g: Dict<GroupEntry>, d: string, e: GroupEntry, ds: seq<string>)
    requires Shaped(g) && StrictlySorted(ds) && |ds| > 0 && d == ds[0] && Below(g, ds)
    requires EntryOk(e) && e.date == d
    ensures Shaped(Next(g, d, e)) && StrictlySorted(ds[1..]) && Below(Next(g, d, e), ds[1..])
  {
    if e.validStudents > 0 {
      PutShaped(g, d, e, ds);
    }
  }

  /** Adding the first remaining date keeps the shape and the order. */
  lemma PutShaped(g: Dict<GroupEntry>, d: string, e: GroupEntry, ds: seq<string>)
    requires Shaped(g) && StrictlySorted(ds) && |ds| > 0 && d == ds[0] && Below(g, ds)
    requires EntryOk(e) && e.date == d && e.validStudents > 0
    ensures Shaped(Put(g, d, e)) && Below(Put(g, d, e), ds[1..])
  {
    var r := Put(g, d, e);
    if d == "Combined" {
      assert Find(g, d) == Some(0);
      assert r == g[0 := (d, e)];
    } else {
      forall i | 1 <= i < |g| ensures g[i].0 != d {
        LessIrreflexive(d);
      }
      assert d !in Keys(g);
      assert r == g + [(d, e)];
      forall i, j | 1 <= i < j < |r| ensures Less(r[i].0, r[j].0) {
        if j == |g| {
          assert Less(g[i].0, ds[0]);
        }
      }
      forall i, j | 1 <= i < |r| && 0 <= j < |ds| - 1 ensures Less(r[i].0, ds[1..][j]) {
        if i == |g| {
          assert Less(ds[0], ds[j + 1]);
        } else {
          assert Less(g[i].0, ds[j + 1]);
        }
      }
    }
  }

  /** The grouped improvement of two frames whose extracted dates are `preDates` and
      `postDates`. */
  function GroupedImprovement(sp: Split): (r: Result<Dict<GroupEntry>>)
    ensures r.Ok? ==> Shaped(r.value)
    ensures r.Ok? <==>
      AllComparable(Joined(sp.pre, sp.post, sp.c))
      && forall d :: d in AllDates(sp.preDates, sp.postDates) ==> AllComparable(sp.DateJoin(d))
    ensures r.Ok? ==> forall d :: d in AllDates(sp.preDates, sp.postDates) && d != "Combined" ==>
      (d in Keys(r.value) <==> AnyValid(sp.DateJoin(d)))
    ensures r.Ok? ==> forall k :: k in Keys(r.value) ==>
      k == "Combined" || k in AllDates(sp.preDates, sp.postDates)
    ensures r.Ok? ==> forall d :: d in AllDates(sp.preDates, sp.postDates) && AnyValid(sp.DateJoin(d)) ==>
      sp.DateSummary(d).Ok? && Get(r.value, d) == Some(sp.DateSummary(d).value)
    ensures r.Ok? && !("Combined" in AllDates(sp.preDates, sp.postDates) && AnyValid(sp.DateJoin("Combined"))) ==>
      Summary(sp.pre, sp.post, sp.c, sp.faculty, "Combined").Ok?
      && Get(r.value, "Combined") == Some(Summary(sp.pre, sp.post, sp.c, sp.faculty, "Combined").value)
  {
    var combined :- Summary(sp.pre, sp.post, sp.c, sp.faculty, "Combined");
    var g := [("Combined", combined)];
    assert Keys(g) == ["Combined"];
    assert Get(g, "Combined") == Some(combined);
    var r := AddDates(g, AllDates(sp.preDates, sp.postDates), sp);
    if r.Ok? then
      AddDatesKeys(g, AllDates(sp.preDates, sp.postDates), sp);
      AddDatesValues(g, AllDates(sp.preDates, sp.postDates), sp);
      r
    else r
  }
}
