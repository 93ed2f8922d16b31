/** The missing-assessment table: identifiers present in only one of the two uploads,
    numbered from 1, those missing the post-assessment first. The identifier and name
    columns are located with the space-insensitive `find_col` rule. */
module Missing {
  import opened Base
  import opened Tables

  /** Which assessment the student did not take. */
  datatype Side = PostAssessment | PreAssessment

  datatype MissingRow = MissingRow(srNo: nat, persNo: string, employeeName: Cell, missing: Side)

  /** Some row has a non-empty identifier that reads as `x`. */
  predicate HasId(f: Frame, col: Option<nat>, x: string) {
    col.Some? && exists i :: 0 <= i < |f.rows| && IdAt(f, col.value, i) == Some(x)
  }

  /** The identifier of row `i` as text, if it has one. */
  function IdAt(f: Frame, c: nat, i: nat): Option<string>
    requires i < |f.rows|
  {
    if At(f.rows[i], c).Null? then None else Some(Shown(At(f.rows[i], c)))
  }

  /** `df[col].dropna().astype(str)` from row `i` on. */
  function IdsFrom(f: Frame, c: nat, i: nat): (r: seq<string>)
    requires i <= |f.rows|
    ensures forall x :: x in r <==> exists j :: i <= j < |f.rows| && IdAt(f, c, j) == Some(x)
    decreases |f.rows| - i
  {
    if i == |f.rows| then []
    else
      var rest := IdsFrom(f, c, i + 1);
      match IdAt(f, c, i)
      case None => rest
      case Some(x) => [x] + rest
  }

  /** `set(df[col].dropna().astype(str)) if col else set()`, listed by first appearance. */
  function IdSet(f: Frame, col: Option<nat>): (r: seq<string>)
    ensures Distinct(r)
    ensures forall x :: x in r <==> HasId(f, col, x)
  {
    match col
    case None => []
    case Some(c) => Unique(IdsFrom(f, c, 0))
  }

  /** `xs - ys`, in the order of `xs`. */
  function Minus(xs: seq<string>, ys: seq<string>): (r: seq<string>)
    ensures forall x :: x in r <==> x in xs && x !in ys
    ensures Distinct(xs) ==> Distinct(r)
  {
    if |xs| == 0 then []
    else
      var rest := Minus(xs[1..], ys);
      assert forall x :: x in xs <==> x == xs[0] || x in xs[1..];
      if xs[0] in ys then rest
      else
        assert Distinct(xs) ==> xs[0] !in xs[1..];
        [xs[0]] + rest
  }

  /** The first row whose identifier column, cast to text (an empty cell giving `nan`),
      equals `pno`. */
  function FirstRow(f: Frame, c: nat, pno: string, i: nat): (r: Option<nat>)
    requires i <= |f.rows|
    ensures r.Some? ==> i <= r.value < |f.rows| && Shown(At(f.rows[r.value], c)) == pno
    ensures r.Some? ==> forall j :: i <= j < r.value ==> Shown(At(f.rows[j], c)) != pno
    ensures r.None? ==> forall j :: i <= j < |f.rows| ==> Shown(At(f.rows[j], c)) != pno
    ensures (exists j :: i <= j < |f.rows| && IdAt(f, c, j) == Some(pno)) ==> r.Some?
    decreases |f.rows| - i
  {
    if i == |f.rows| then None
    else if Shown(At(f.rows[i], c)) == pno then Some(i)
    else FirstRow(f, c, pno, i + 1)
  }

  /** Row `i` is the first whose identifier, cast to text, reads `pno`. */
  predicate FirstWithId(f: Frame, c: nat, pno: string, i: nat) {
    && i < |f.rows| && Shown(At(f.rows[i], c)) == pno
    && forall j :: 0 <= j < i ==> Shown(At(f.rows[j], c)) != pno
  }

  /** An empty name reads as `''`. */
  function NameCell(v: Cell): Cell {
    if v.Null? then Str("") else v
  }

  /** `row.get(name_col, '')` of the first row whose identifier reads `pno`, with an
      empty name read as `''`; `''` without an identifier or a name column. */
  function NameOf(f: Frame, idCol: Option<nat>, nameCol: Option<nat>, pno: string): (n: Cell)
    ensures !n.Null?
    ensures nameCol.None? || idCol.None? ==> n == Str("")
    ensures idCol.Some? && nameCol.Some? ==> forall i: nat :: FirstWithId(f, idCol.value, pno, i) ==>
      n == NameCell(At(f.rows[i], nameCol.value))
    ensures idCol.Some? && (forall i :: 0 <= i < |f.rows| ==> Shown(At(f.rows[i], idCol.value)) != pno) ==>
      n == Str("")
  {
    if idCol.None? || nameCol.None? then Str("")
    else match FirstRow(f, idCol.value, pno, 0)
      case None => Str("")
      case Some(i) =>
        assert forall k :: FirstWithId(f, idCol.value, pno, k) ==> k == i;
        NameCell(At(f.rows[i], nameCol.value))
  }

  /** The rows for identifiers `ids`, numbered from `start`. */
  function Numbered(ids: seq<string>, start: nat, side: Side, f: Frame, idCol: Option<nat>,
                    nameCol: Option<nat>): (r: seq<MissingRow>)
    ensures |r| == |ids|
    ensures forall k :: 0 <= k < |r| ==>
      r[k] == MissingRow(start + k, ids[k], NameOf(f, idCol, nameCol, ids[k]), side)
  {
    seq(|ids|, k requires 0 <= k < |ids| =>
      MissingRow(start + k, ids[k], NameOf(f, idCol, nameCol, ids[k]), side))
  }

  /** Where each upload's identifier and name columns are. */
  datatype Lookup = Lookup(id: Option<nat>, name: Option<nat>)

  /** The two numbered blocks: the identifiers of `xs` missing the post-assessment, then
      those of `ys` missing the pre-assessment. */
  function Blocks(xs: seq<string>, ys: seq<string>, pre: Frame, pl: Lookup, post: Frame,
                  ql: Lookup): (r: seq<MissingRow>)
    ensures |r| == |xs| + |ys|
    ensures forall k :: 0 <= k < |r| ==> r[k].srNo == k + 1 && !r[k].employeeName.Null?
    ensures forall k :: 0 <= k < |r| ==> (r[k].missing == PostAssessment <==> k < |xs|)
    ensures forall k :: 0 <= k < |xs| ==> r[k].persNo == xs[k]
    ensures forall k :: |xs| <= k < |r| ==> r[k].persNo == ys[k - |xs|]
  {
    var a := Numbered(xs, 1, PostAssessment, pre, pl.id, pl.name);
    var b := Numbered(ys, |xs| + 1, PreAssessment, post, ql.id, ql.name);
    assert forall k :: 0 <= k < |a| ==> (a + b)[k] == a[k];
    assert forall k :: |a| <= k < |a| + |b| ==> (a + b)[k] == b[k - |a|];
    a + b
  }

  /** `missing_assessment_table`. */
  function MissingTable(pre: Frame, pl: Lookup, post: Frame, ql: Lookup): (r: seq<MissingRow>)
    ensures forall k :: 0 <= k < |r| ==> r[k].srNo == k + 1 && !r[k].employeeName.Null?
    ensures forall k :: 0 <= k < |r| && r[k].missing == PostAssessment ==>
      HasId(pre, pl.id, r[k].persNo) && !HasId(post, ql.id, r[k].persNo)
    ensures forall k :: 0 <= k < |r| && r[k].missing == PreAssessment ==>
      HasId(post, ql.id, r[k].persNo) && !HasId(pre, pl.id, r[k].persNo)
    ensures forall k, l :: 0 <= k < l < |r| && r[l].missing == PostAssessment ==>
      r[k].missing == PostAssessment
  {
    var onlyPre := Minus(IdSet(pre, pl.id), IdSet(post, ql.id));
    var onlyPost := Minus(IdSet(post, ql.id), IdSet(pre, pl.id));
    Blocks(onlyPre, onlyPost, pre, pl, post, ql)
  }

  /** Every identifier in the pre-assessment upload only has a row missing the
      post-assessment. */
  lemma MissingTableCoversPre(pre: Frame, pl: Lookup, post: Frame, ql: Lookup, x: string)
    requires HasId(pre, pl.id, x) && !HasId(post, ql.id, x)
    ensures var r := MissingTable(pre, pl, post, ql);
      exists k :: 0 <= k < |r| && r[k].persNo == x && r[k].missing == PostAssessment
  {
    var onlyPre := Minus(IdSet(pre, pl.id), IdSet(post, ql.id));
    var onlyPost := Minus(IdSet(post, ql.id), IdSet(pre, pl.id));
    var r := Blocks(onlyPre, onlyPost, pre, pl, post, ql);
    assert r == MissingTable(pre, pl, post, ql);
    assert x in onlyPre;
    var k :| 0 <= k < |onlyPre| && onlyPre[k] == x;
    assert r[k].persNo == x && r[k].missing == PostAssessment;
  }

  /** Every identifier in the post-assessment upload only has a row missing the
      pre-assessment. */
  lemma MissingTableCoversPost(pre: Frame, pl: Lookup, post: Frame, ql: Lookup, x: string)
    requires HasId(post, ql.id, x) && !HasId(pre, pl.id, x)
    ensures var r := MissingTable(pre, pl, post, ql);
      exists k :: 0 <= k < |r| && r[k].persNo == x && r[k].missing == PreAssessment
  {
    var onlyPre := Minus(IdSet(pre, pl.id), IdSet(post, ql.id));
    var onlyPost := Minus(IdSet(post, ql.id), IdSet(pre, pl.id));
    var r := Blocks(onlyPre, onlyPost, pre, pl, post, ql);
    assert r == MissingTable(pre, pl, post, ql);
    assert x in onlyPost;
    var k :| 0 <= k < |onlyPost| && onlyPost[k] == x;
    var n := |onlyPre| + k;
    assert r[n].persNo == x && r[n].missing == PreAssessment;
  }

  /** No identifier is listed twice. */
  lemma MissingTableDistinct(pre: Frame, pl: Lookup, post: Frame, ql: Lookup, k: int, l: int)
    requires 0 <= k < l < |MissingTable(pre, pl, post, ql)|
    ensures MissingTable(pre, pl, post, ql)[k].persNo != MissingTable(pre, pl, post, ql)[l].persNo
  {
    var pres, posts := IdSet(pre, pl.id), IdSet(post, ql.id);
    var onlyPre, onlyPost := Minus(pres, posts), Minus(posts, pres);
    assert forall x :: x in onlyPre ==> x !in onlyPost;
    BlocksDistinct(onlyPre, onlyPost, pre, pl, post, ql, k, l);
  }

  lemma BlocksDistinct(xs: seq<string>, ys: seq<string>, pre: Frame, pl: Lookup, post: Frame,
                       ql: Lookup, k: int, l: int)
    requires Distinct(xs) && Distinct(ys) && forall x :: x in xs ==> x !in ys
    requires 0 <= k < l < |xs| + |ys|
    ensures Blocks(xs, ys, pre, pl, post, ql)[k].persNo != Blocks(xs, ys, pre, pl, post, ql)[l].persNo
  {
    var r := Blocks(xs, ys, pre, pl, post, ql);
    var n := |xs|;
    if l < n {
      assert r[k].persNo == xs[k] && r[l].persNo == xs[l];
    } else if k >= n {
      assert r[k].persNo == ys[k - n] && r[l].persNo == ys[l - n];
    } else {
      assert r[k].persNo == xs[k] && r[l].persNo == ys[l - n];
      assert xs[k] in xs && ys[l - n] in ys;
    }
  }

  /** Its length is the size of the two set differences. */
  lemma MissingTableLength(pre: Frame, pl: Lookup, post: Frame, ql: Lookup)
    ensures |MissingTable(pre, pl, post, ql)|
         == |Minus(IdSet(pre, pl.id), IdSet(post, ql.id))| + |Minus(IdSet(post, ql.id), IdSet(pre, pl.id))|
  {
  }

  /** A student missing a side always appears under their identifier's row: the name
      lookup finds a row. */
  lemma NameRowExists(f: Frame, l: Lookup, pno: string)
    requires HasId(f, l.id, pno)
    ensures FirstRow(f, l.id.value, pno, 0).Some?
  {
  }

  /** A distinct sequence whose only entry is `x` is `[x]`. */
  lemma SingleEntry(s: seq<string>, x: string)
    ensures Distinct(s) && x in s && (forall y :: y in s ==> y == x) ==> s == [x]
  {
    if |s| > 1 {
      assert s[0] in s && s[1] in s;
    }
  }

  lemma NothingIn(s: seq<string>)
    ensures (forall y :: y !in s) ==> s == []
  {
    if |s| > 0 {
      assert s[0] in s;
    }
  }

  /** When the post-assessment upload has every pre-assessment identifier and just one
      more, `x`, the table is the single row for `x`. */
  lemma OneMissingPre(pre: Frame, pl: Lookup, post: Frame, ql: Lookup, x: string)
    requires forall y :: HasId(pre, pl.id, y) ==> HasId(post, ql.id, y)
    requires forall y :: HasId(post, ql.id, y) && !HasId(pre, pl.id, y) ==> y == x
    requires HasId(post, ql.id, x) && !HasId(pre, pl.id, x)
    ensures MissingTable(pre, pl, post, ql)
         == [MissingRow(1, x, NameOf(post, ql.id, ql.name, x), PreAssessment)]
  {
    var pres, posts := IdSet(pre, pl.id), IdSet(post, ql.id);
    var onlyPre := Minus(pres, posts);
    NothingIn(onlyPre);
    var onlyPost := Minus(posts, pres);
    SingleEntry(onlyPost, x);
    var r := Blocks(onlyPre, onlyPost, pre, pl, post, ql);
    assert |r| == 1;
  }

  /** Identifier `4` only in the post-assessment upload, which has no name column: one
      row, numbered 1, missing the pre-assessment. */
  lemma OnlyInPostExample()
    ensures MissingTable(
      Frame(["Pers No"], [[Str("1")], [Str("2")], [Str("3")]]), Lookup(Some(0), None),
      Frame(["Pers No"], [[Str("1")], [Str("2")], [Str("3")], [Str("4")]]), Lookup(Some(0), None))
      == [MissingRow(1, "4", Str(""), PreAssessment)]
  {
    var pre := Frame(["Pers No"], [[Str("1")], [Str("2")], [Str("3")]]);
    var post := Frame(["Pers No"], [[Str("1")], [Str("2")], [Str("3")], [Str("4")]]);
    ExampleIds(pre, post);
    OneMissingPre(pre, Lookup(Some(0), None), post, Lookup(Some(0), None), "4");
  }

  lemma ExampleIds(pre: Frame, post: Frame)
    requires pre == Frame(["Pers No"], [[Str("1")], [Str("2")], [Str("3")]])
    requires post == Frame(["Pers No"], [[Str("1")], [Str("2")], [Str("3")], [Str("4")]])
    ensures forall x :: HasId(pre, Some(0), x) ==> HasId(post, Some(0), x)
    ensures forall x :: HasId(post, Some(0), x) ==> HasId(pre, Some(0), x) || x == "4"
    ensures HasId(post, Some(0), "4") && !HasId(pre, Some(0), "4")
  {
    assert IdAt(post, 0, 3) == Some("4");
    forall x | HasId(pre, Some(0), x) ensures HasId(post, Some(0), x) {
      var i :| 0 <= i < |pre.rows| && IdAt(pre, 0, i) == Some(x);
      assert IdAt(post, 0, i) == Some(x);
    }
    forall x | HasId(post, Some(0), x) ensures HasId(pre, Some(0), x) || x == "4" {
      var i :| 0 <= i < |post.rows| && IdAt(post, 0, i) == Some(x);
      if i < 3 {
        assert IdAt(pre, 0, i) == Some(x);
      }
    }
  }
}
