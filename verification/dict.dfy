/** Python's `dict` keyed by strings: insertion-ordered, and assigning to a key that is
    already present replaces its value in place without moving it. */
module Dict {
  import opened Base

  type Dict<V> = seq<(string, V)>

  function Keys<V>(d: Dict<V>): seq<string> {
    seq(|d|, i requires 0 <= i < |d| => d[i].0)
  }

  /** No key occurs twice: the representation invariant of a dictionary. */
  predicate DistinctKeys<V>(d: Dict<V>) {
    forall i, j :: 0 <= i < j < |d| ==> d[i].0 != d[j].0
  }

  /** Position of the first entry with key `k`. */
  function Find<V>(d: Dict<V>, k: string): (r: Option<nat>)
    ensures r.Some? ==> r.value < |d| && d[r.value].0 == k
    ensures r.Some? ==> forall j :: 0 <= j < r.value ==> d[j].0 != k
    ensures r.None? ==> forall j :: 0 <= j < |d| ==> d[j].0 != k
  {
    if |d| == 0 then None
    else if d[0].0 == k then Some(0)
    else match Find(d[1..], k)
      case None => None
      case Some(i) => Some(i + 1)
  }

  /** `d.get(k)`. */
  function Get<V>(d: Dict<V>, k: string): Option<V> {
    match Find(d, k)
    case None => None
    case Some(i) => Some(d[i].1)
  }

  /** `d[k] = v`. */
  function Put<V>(d: Dict<V>, k: string, v: V): (r: Dict<V>)
    ensures Get(r, k) == Some(v)
    ensures forall k' :: k' != k ==> Get(r, k') == Get(d, k')
    ensures k in Keys(d) ==> Keys(r) == Keys(d)
    ensures k !in Keys(d) ==> Keys(r) == Keys(d) + [k] && r == d + [(k, v)]
    ensures Find(d, k).Some? ==> r == d[Find(d, k).value := (k, v)]
    ensures DistinctKeys(d) ==> DistinctKeys(r)
  {
    match Find(d, k)
    case None =>
      var r := d + [(k, v)];
      assert forall k' :: k' != k ==> Find(r, k') == Find(d, k') by {
        forall k' | k' != k ensures Find(r, k') == Find(d, k') {
          FindExtend(d, (k, v), k');
        }
      }
      assert k !in Keys(d);
      FindFresh(d, k, v);
      r
    case Some(i) =>
      var r := d[i := (k, v)];
      assert Find(r, k) == Some(i) by { FindUpdate(d, i, v, k); }
      assert forall k' :: k' != k ==> Find(r, k') == Find(d, k') by {
        forall k' | k' != k ensures Find(r, k') == Find(d, k') {
          FindUpdate(d, i, v, k');
        }
      }
      assert k in Keys(d) by { assert Keys(d)[i] == k; }
      r
  }

  lemma {:induction false} FindExtend<V>(d: Dict<V>, e: (string, V), k: string)
    requires e.0 != k
    ensures Find(d + [e], k) == Find(d, k)
  {
    var r := Find(d + [e], k);
    var s := Find(d, k);
    if r.Some? {
      assert (d + [e])[r.value] == d[r.value];
    }
    if s.Some? {
      assert (d + [e])[s.value] == d[s.value];
    }
  }

  lemma {:induction false} FindFresh<V>(d: Dict<V>, k: string, v: V)
    requires Find(d, k).None?
    ensures Find(d + [(k, v)], k) == Some(|d|)
  {
    var e := d + [(k, v)];
    assert e[|d|].0 == k;
    assert forall j :: 0 <= j < |d| ==> e[j] == d[j];
  }

  lemma {:induction false} FindUpdate<V>(d: Dict<V>, i: nat, v: V, k: string)
    requires i < |d|
    ensures Find(d[i := (d[i].0, v)], k) == Find(d, k)
  {
    var r := Find(d[i := (d[i].0, v)], k);
    var s := Find(d, k);
    if r.Some? {
      assert d[i := (d[i].0, v)][r.value].0 == d[r.value].0;
    }
    if s.Some? {
      assert d[i := (d[i].0, v)][s.value].0 == d[s.value].0;
    }
  }
}
