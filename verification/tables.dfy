/** Spreadsheets as the analysis view sees them after `pd.read_excel`: a header row and
    rows of cells, plus the header-matching rules the view uses to locate its columns. */
module Tables {
  import opened Base
  import opened Text

  /** One spreadsheet cell. `shown` is what `str(value)` renders (pandas' `astype(str)`),
      so that numbers need not be printed by the model; a `Stamp` is a `pd.Timestamp`,
      ordered by its instant. A plain `datetime.datetime` held in an object column is not
      a `pd.Timestamp` to `isinstance`, so it is the text cell `Str(str(v))`. */
  datatype Cell =
    | Null
    | Num(value: real, shown: string)
    | Str(s: string)
    | Stamp(instant: int, shown: string)

  type Row = seq<Cell>

  /** A data frame: column headers and rows, each row positional over the headers. */
  datatype Frame = Frame(columns: seq<string>, rows: seq<Row>)

  /** The cell of row `r` in column `c`; a row that is too short reads as empty. */
  function At(r: Row, c: nat): Cell {
    if c < |r| then r[c] else Null
  }

  /** `str(cell)` as produced by `astype(str)`: an empty cell becomes the text `nan`. */
  function Shown(c: Cell): (s: string)
    ensures c.Null? ==> s == "nan"
    ensures c.Str? ==> s == c.s
  {
    match c
    case Null => "nan"
    case Num(_, s) => s
    case Str(s) => s
    case Stamp(_, s) => s
  }

  /** The ways the view recognises a column by its header text. */
  datatype Rule =
      /** `needle in col.lower()` */
    | LowerContains(needle: string)
      /** `str(col).strip().lower() == target` */
    | StripLowerEquals(target: string)
      /** `needle in col.lower().replace(' ', '')` */
    | SpacelessContains(needle: string)
      /** `clean_col(col).startswith(prefix)` */
    | CleanStartsWith(prefix: string)
      /** `clean_col(col) == target` */
    | CleanEquals(target: string)

  const NoBreakSpace: char := 0xA0 as char
  const ZeroWidthNonJoiner: char := 0x200C as char

  /** `clean_col`: no-break spaces become spaces, zero-width non-joiners vanish, then
      the result is stripped. */
  function Clean(h: string): (r: string)
    ensures NoBreakSpace !in r && ZeroWidthNonJoiner !in r
    ensures |r| > 0 ==> !IsSpace(r[0]) && !IsSpace(r[|r| - 1])
  {
    var spaced := Replace(h, [NoBreakSpace], " ");
    assert NoBreakSpace !in spaced by {
      forall i | 0 <= i < |spaced| ensures spaced[i] != NoBreakSpace {}
    }
    var joined := Replace(spaced, [ZeroWidthNonJoiner], "");
    var r := Strip(joined);
    assert forall c :: c in r ==> c in joined;
    r
  }

  predicate Matches(rule: Rule, h: string) {
    match rule
    case LowerContains(n) => Contains(Lower(h), n)
    case StripLowerEquals(t) => Lower(Strip(h)) == t
    case SpacelessContains(n) => Contains(RemoveBlanks(Lower(h)), n)
    case CleanStartsWith(p) => StartsWith(Clean(h), p)
    case CleanEquals(t) => Clean(h) == t
  }

  /** The first header the rule accepts (`for col in df.columns: if …: break`). */
  function FindColumn(cols: seq<string>, rule: Rule): (r: Option<nat>)
    ensures r.Some? ==> r.value < |cols| && Matches(rule, cols[r.value])
    ensures r.Some? ==> forall j :: 0 <= j < r.value ==> !Matches(rule, cols[j])
    ensures r.None? ==> forall j :: 0 <= j < |cols| ==> !Matches(rule, cols[j])
  {
    var bs := seq(|cols|, j requires 0 <= j < |cols| => Matches(rule, cols[j]));
    assert forall j :: 0 <= j < |cols| ==> bs[j] == Matches(rule, cols[j]);
    FirstTrue(bs)
  }

  /** The position of the first `true`. */
  function FirstTrue(bs: seq<bool>): (r: Option<nat>)
    ensures r.Some? ==> r.value < |bs| && bs[r.value]
    ensures r.Some? ==> forall j :: 0 <= j < r.value ==> !bs[j]
    ensures r.None? ==> forall j :: 0 <= j < |bs| ==> !bs[j]
  {
    if |bs| == 0 then None
    else if bs[0] then Some(0)
    else match FirstTrue(bs[1..])
      case None => None
      case Some(i) => Some(i + 1)
  }

  /** Position of header `name` (`df[name]`); `None` is pandas' `KeyError`. */
  function IndexOf(cols: seq<string>, name: string): (r: Option<nat>)
    ensures r.Some? ==> r.value < |cols| && cols[r.value] == name
    ensures r.None? <==> name !in cols
  {
    if |cols| == 0 then None
    else if cols[0] == name then Some(0)
    else match IndexOf(cols[1..], name)
      case None => None
      case Some(i) => Some(i + 1)
  }

  /** The values of column `c`, one per row. */
  function ColumnOf(f: Frame, c: nat): (v: seq<Cell>)
    ensures |v| == |f.rows|
    ensures forall i :: 0 <= i < |v| ==> v[i] == At(f.rows[i], c)
  {
    seq(|f.rows|, i requires 0 <= i < |f.rows| => At(f.rows[i], c))
  }

  /** The identifier rule of the missing-assessment table is looser than the one of the
      score analysis: a header containing `pers no` in lower case also contains `persno`
      once its spaces are removed. */
  lemma PersNoRulesAgree(h: string)
    requires Matches(LowerContains("pers no"), h)
    ensures Matches(SpacelessContains("persno"), h)
  {
    var l := Lower(h);
    ContainsAt(l, "pers no");
    var i :| OccursAt(l, "pers no", i);
    BlanksAround(l, i);
  }

  /** Removing the spaces around an occurrence of `pers no` leaves `persno` in place. */
  lemma BlanksAround(l: string, i: int)
    requires OccursAt(l, "pers no", i)
    ensures Contains(RemoveBlanks(l), "persno")
  {
    var a, b := l[..i], l[i + 7..];
    assert l == a + "pers no" + b;
    RemoveBlanksAppend(a + "pers no", b);
    RemoveBlanksAppend(a, "pers no");
    PersNoWithoutBlank();
    var ra := RemoveBlanks(a);
    var r := RemoveBlanks(l);
    assert r == ra + "persno" + RemoveBlanks(b);
    assert OccursAt(r, "persno", |ra|);
    ContainsAtWitness(r, "persno", |ra|);
  }

  lemma PersNoWithoutBlank()
    ensures RemoveBlanks("pers no") == "persno"
  {
    assert RemoveBlanks("") == "";
    assert RemoveBlanks("o") == "o";
    assert RemoveBlanks("no") == "no";
    assert RemoveBlanks(" no") == "no";
    assert RemoveBlanks("s no") == "sno";
    assert RemoveBlanks("rs no") == "rsno";
    assert RemoveBlanks("ers no") == "ersno";
  }

  /** Hence the missing-assessment table finds its identifier column no later than the
      score analysis does. */
  lemma PersNoFoundNoLater(cols: seq<string>)
    requires FindColumn(cols, LowerContains("pers no")).Some?
    ensures FindColumn(cols, SpacelessContains("persno")).Some?
    ensures FindColumn(cols, SpacelessContains("persno")).value
            <= FindColumn(cols, LowerContains("pers no")).value
  {
    var i := FindColumn(cols, LowerContains("pers no")).value;
    PersNoRulesAgree(cols[i]);
  }

  lemma {:induction false} NoCharNoContains(s: string, c: char)
    ensures Contains(s, [c]) ==> c in s
  {
    if |s| > 0 {
      NoCharNoContains(s[1..], c);
      if StartsWith(s, [c]) {
        assert s[0] == s[..1][0];
      }
      assert c in s[1..] ==> c in s;
    }
  }

  /** A header with neither a no-break space nor a zero-width non-joiner is cleaned by a
      plain `strip`. */
  lemma CleanPlain(h: string)
    requires NoBreakSpace !in h && ZeroWidthNonJoiner !in h
    ensures Clean(h) == Strip(h)
  {
    NoCharNoContains(h, NoBreakSpace);
    NoCharNoContains(h, ZeroWidthNonJoiner);
  }

  /** `[x for x in xs if x in ys]`: the entries of `xs` also in `ys`, in the order of `xs`. */
  function Common(xs: seq<string>, ys: seq<string>): (r: seq<string>)
    ensures |r| <= |xs|
    ensures forall x :: x in r <==> x in xs && x in ys
  {
    if |xs| == 0 then []
    else if xs[0] in ys then [xs[0]] + Common(xs[1..], ys)
    else Common(xs[1..], ys)
  }

  /** The comprehension's loop: each entry of `xs`, in turn, is appended when `ys` has it,
      so the kept entries stay in the order of `xs`. */
  lemma {:induction false} CommonAppend(xs: seq<string>, x: string, ys: seq<string>)
    ensures Common(xs + [x], ys) == Common(xs, ys) + (if x in ys then [x] else [])
    decreases |xs|
  {
    if |xs| > 0 {
      assert (xs + [x])[1..] == xs[1..] + [x];
      CommonAppend(xs[1..], x, ys);
    }
  }

  /** No entry occurs twice. */
  predicate Distinct<T(==)>(xs: seq<T>) {
    forall i, j :: 0 <= i < j < |xs| ==> xs[i] != xs[j]
  }

  /** `unique()`: the distinct entries, each where it first appears. */
  function Unique<T(==,!new)>(xs: seq<T>): (r: seq<T>)
    ensures Distinct(r)
    ensures forall x :: x in r <==> x in xs
    ensures |r| <= |xs|
  {
    if |xs| == 0 then []
    else
      var rest := Unique(xs[..|xs| - 1]);
      var x := xs[|xs| - 1];
      assert xs == xs[..|xs| - 1] + [x];
      if x in rest then rest else rest + [x]
  }

  /** `dropna()` of a column of cells. */
  function DropNull(cs: seq<Cell>): (r: seq<Cell>)
    ensures forall c :: c in r <==> c in cs && !c.Null?
    ensures |r| <= |cs|
  {
    if |cs| == 0 then []
    else
      var rest := DropNull(cs[1..]);
      assert forall c :: c in cs <==> c == cs[0] || c in cs[1..];
      if cs[0].Null? then rest else [cs[0]] + rest
  }
}
