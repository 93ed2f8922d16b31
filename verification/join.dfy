/** `pd.merge(pre, post, on=id)` (an inner join) on identifier keys that have been cast
    to text. Rows are paired by position: `(i, j)` pairs row `i` of the pre-assessment
    frame with row `j` of the post-assessment frame. */
module Join {
  import opened Base
  import opened Tables
  import opened Text
  import opened Counting

  type Pair = (nat, nat)

  /** The identifier column cast to text, one key per row (`df[id].astype(str)`). */
  function IdKeys(f: Frame, id: nat): (k: seq<string>)
    ensures |k| == |f.rows|
    ensures forall i :: 0 <= i < |k| ==> k[i] == Shown(At(f.rows[i], id))
  {
    seq(|f.rows|, i requires 0 <= i < |f.rows| => Shown(At(f.rows[i], id)))
  }

  /** Lexicographic order on row pairs: pre row first, then post row. */
  predicate PairLess(p: Pair, q: Pair) {
    p.0 < q.0 || (p.0 == q.0 && p.1 < q.1)
  }

  /** `(i, j)` pairs two rows with the same key. */
  predicate Matched(a: seq<string>, b: seq<string>, p: Pair) {
    p.0 < |a| && p.1 < |b| && a[p.0] == b[p.1]
  }

  /** The post rows at or after `j` whose key is `key`, each paired with pre row `i`. */
  function PartnersFrom(key: string, b: seq<string>, i: nat, j: nat): (r: seq<Pair>)
    requires j <= |b|
    ensures forall k :: 0 <= k < |r| ==> r[k].0 == i && j <= r[k].1 < |b| && b[r[k].1] == key
    ensures forall j' :: j <= j' < |b| && b[j'] == key ==> (i, j') in r
    ensures forall k, l :: 0 <= k < l < |r| ==> r[k].1 < r[l].1
    decreases |b| - j
  {
    if j == |b| then []
    else if b[j] == key then [(i, j)] + PartnersFrom(key, b, i, j + 1)
    else PartnersFrom(key, b, i, j + 1)
  }

  /** The join of pre rows `i..` with all post rows. */
  function JoinFrom(a: seq<string>, b: seq<string>, i: nat): (r: seq<Pair>)
    requires i <= |a|
    ensures forall k :: 0 <= k < |r| ==> i <= r[k].0 && Matched(a, b, r[k])
    ensures forall k, l :: 0 <= k < l < |r| ==> PairLess(r[k], r[l])
    decreases |a| - i
  {
    if i == |a| then []
    else
      var m := PartnersFrom(a[i], b, i, 0);
      var rest := JoinFrom(a, b, i + 1);
      var r := m + rest;
      assert forall k :: 0 <= k < |m| ==> r[k] == m[k];
      assert forall k :: |m| <= k < |r| ==> r[k] == rest[k - |m|];
      r
  }

  /** All matching `(pre row, post row)` pairs, in pre-row order and then post-row order. */
  function JoinPairs(a: seq<string>, b: seq<string>): (r: seq<Pair>)
    ensures forall k :: 0 <= k < |r| ==> Matched(a, b, r[k])
    ensures forall k, l :: 0 <= k < l < |r| ==> PairLess(r[k], r[l])
  {
    JoinFrom(a, b, 0)
  }

  /** Every pair of rows with equal keys is in the join: nothing is dropped. */
  lemma {:induction false} JoinFromComplete(a: seq<string>, b: seq<string>, i: nat, p: Pair)
    requires i <= p.0 && Matched(a, b, p)
    ensures p in JoinFrom(a, b, i)
    decreases |a| - i
  {
    var m := PartnersFrom(a[i], b, i, 0);
    var rest := JoinFrom(a, b, i + 1);
    assert JoinFrom(a, b, i) == m + rest;
    if p.0 == i {
      assert p in m;
    } else {
      JoinFromComplete(a, b, i + 1, p);
    }
  }

  /** The join holds exactly the pairs of rows with equal keys. */
  lemma JoinExact(a: seq<string>, b: seq<string>, p: Pair)
    ensures p in JoinPairs(a, b) <==> Matched(a, b, p)
  {
    if Matched(a, b, p) {
      JoinFromComplete(a, b, 0, p);
    }
  }

  /** Swapping the two sides swaps every pair: the join is symmetric as a relation. */
  lemma JoinSymmetric(a: seq<string>, b: seq<string>, p: Pair)
    ensures p in JoinPairs(a, b) <==> (p.1, p.0) in JoinPairs(b, a)
  {
    JoinExact(a, b, p);
    JoinExact(b, a, (p.1, p.0));
  }

  /** Both sides' empty identifiers become the text `nan` and so match each other. */
  lemma NullIdsJoin(pre: Frame, post: Frame, id: nat, i: nat, j: nat)
    requires i < |pre.rows| && j < |post.rows|
    requires At(pre.rows[i], id).Null? && At(post.rows[j], id).Null?
    ensures (i, j) in JoinPairs(IdKeys(pre, id), IdKeys(post, id))
  {
    JoinExact(IdKeys(pre, id), IdKeys(post, id), (i, j));
  }

  /** The cells of one column on each side of every joined pair. */
  function PairedCells(pre: Frame, post: Frame, pc: nat, qc: nat, pairs: seq<Pair>)
    : (r: seq<(Cell, Cell)>)
    ensures |r| == |pairs|
    ensures forall k :: 0 <= k < |r| ==> r[k] == (CellOf(pre, pairs[k].0, pc), CellOf(post, pairs[k].1, qc))
  {
    seq(|pairs|, k requires 0 <= k < |pairs| =>
      (CellOf(pre, pairs[k].0, pc), CellOf(post, pairs[k].1, qc)))
  }

  /** The cell of row `i`, column `c`; rows past the end read as empty. */
  function CellOf(f: Frame, i: nat, c: nat): Cell {
    if i < |f.rows| then At(f.rows[i], c) else Null
  }

  /** The columns one merge works on: the identifier on each side and the score column
      on each side. */
  datatype Columns = Columns(preId: nat, postId: nat, preScore: nat, postScore: nat)

  /** `merged[f'{col}_pre']` and `merged[f'{col}_post']` of the merge on the identifier:
      the two score cells of every joined pair of students. */
  function Joined(pre: Frame, post: Frame, c: Columns): (r: seq<(Cell, Cell)>)
    ensures |r| == |JoinPairs(IdKeys(pre, c.preId), IdKeys(post, c.postId))|
  {
    PairedCells(pre, post, c.preScore, c.postScore,
                JoinPairs(IdKeys(pre, c.preId), IdKeys(post, c.postId)))
  }

  /** `df['__date'] == d` as a test on one extracted date. */
  function DatedOn(d: string): Option<string> -> bool {
    o => o == Some(d)
  }

  /** `df[df['__date'] == d]`: the rows whose extracted date is `d`, in their order. */
  function Restrict(f: Frame, ds: seq<Option<string>>, d: string): (g: Frame)
    ensures g.columns == f.columns
    ensures |g.rows| <= |f.rows|
    ensures forall r :: r in g.rows ==>
      exists i :: 0 <= i < |f.rows| && i < |ds| && ds[i] == Some(d) && f.rows[i] == r
    ensures |ds| == |f.rows| ==>
      forall i :: 0 <= i < |f.rows| && ds[i] == Some(d) ==> f.rows[i] in g.rows
    ensures |ds| == |f.rows| ==> |g.rows| == Count(ds, DatedOn(d))
    decreases |f.rows|
  {
    if |f.rows| == 0 || |ds| == 0 then
      if |ds| == 0 then CountEmpty(ds, DatedOn(d)); Frame(f.columns, [])
      else Frame(f.columns, [])
    else
      var rest := Restrict(Frame(f.columns, f.rows[1..]), ds[1..], d);
      assert forall i :: 0 < i < |f.rows| ==> f.rows[i] == f.rows[1..][i - 1];
      assert forall i :: 0 < i < |ds| ==> ds[i] == ds[1..][i - 1];
      CountTail(ds, DatedOn(d));
      if ds[0] == Some(d) then Frame(f.columns, [f.rows[0]] + rest.rows) else rest
  }
}
