/**
 * Tables keyed by an AUTOINCREMENT integer id, held as maps. `SELECT *`
 * without ORDER BY lists rows in ascending id order, which `Listing` models.
 */
module Tables {

  /** The ids of `m` in [lo, hi), ascending. */
  function Ids<V>(m: map<int, V>, lo: int, hi: int): (r: seq<int>)
    ensures forall i :: 0 <= i < |r| ==> r[i] in m && lo <= r[i] < hi
    ensures forall k :: k in m && lo <= k < hi ==> k in r
    ensures forall i, j :: 0 <= i < j < |r| ==> r[i] < r[j]
    decreases hi - lo
  {
    if lo >= hi then []
    else
      var rest := Ids(m, lo + 1, hi);
      if lo in m then
        IdsCons(m, lo, hi, rest);
        [lo] + rest
      else rest
  }

  /** Putting `lo` in front of the ids in (lo, hi) gives the ids in [lo, hi). */
  lemma IdsCons<V>(m: map<int, V>, lo: int, hi: int, rest: seq<int>)
    requires lo in m && lo < hi
    requires forall i :: 0 <= i < |rest| ==> rest[i] in m && lo + 1 <= rest[i] < hi
    requires forall k :: k in m && lo + 1 <= k < hi ==> k in rest
    requires forall i, j :: 0 <= i < j < |rest| ==> rest[i] < rest[j]
    ensures forall i :: 0 <= i < |[lo] + rest| ==> ([lo] + rest)[i] in m && lo <= ([lo] + rest)[i] < hi
    ensures forall k :: k in m && lo <= k < hi ==> k in [lo] + rest
    ensures forall i, j :: 0 <= i < j < |[lo] + rest| ==> ([lo] + rest)[i] < ([lo] + rest)[j]
  {
    var r := [lo] + rest;
    forall i, j | 0 <= i < j < |r| ensures r[i] < r[j] {
      assert r[j] == rest[j - 1];
      if i > 0 {
        assert r[i] == rest[i - 1];
      }
    }
  }

  /** The rows of `m` with ids in [lo, hi), in ascending id order. */
  function Listing<V>(m: map<int, V>, lo: int, hi: int): (r: seq<V>)
    ensures |r| == |Ids(m, lo, hi)|
    ensures forall i :: 0 <= i < |r| ==> r[i] == m[Ids(m, lo, hi)[i]]
  {
    var ids := Ids(m, lo, hi);
    seq(|ids|, i requires 0 <= i < |ids| => m[ids[i]])
  }

  /** A strictly increasing sequence has as many elements as its set of values. */
  lemma {:induction false} IncreasingCard(s: seq<int>)
    requires forall i, j :: 0 <= i < j < |s| ==> s[i] < s[j]
    ensures |set x | x in s| == |s|
  {
    if s != [] {
      IncreasingCard(s[1..]);
      var rest := set x | x in s[1..];
      assert (set x | x in s) == rest + {s[0]};
      assert s[0] !in rest;
    }
  }

  /** When every id lies in [lo, hi), the listing has one entry per row. */
  lemma ListingLength<V>(m: map<int, V>, lo: int, hi: int)
    requires forall k :: k in m ==> lo <= k < hi
    ensures |Listing(m, lo, hi)| == |m|
  {
    var ids := Ids(m, lo, hi);
    IncreasingCard(ids);
    assert (set x | x in ids) == m.Keys;
    assert |m.Keys| == |m|;
  }

  /** Adding a row under an id above every range id appends it to the listing. */
  lemma {:induction false} IdsAppend<V>(m: map<int, V>, lo: int, k: int, v: V)
    requires lo <= k && k !in m
    ensures Ids(m[k := v], lo, k + 1) == Ids(m, lo, k) + [k]
    decreases k - lo
  {
    if lo < k {
      IdsAppend(m, lo + 1, k, v);
      assert (lo in m[k := v]) == (lo in m);
    }
  }

  lemma ListingAppend<V>(m: map<int, V>, lo: int, k: int, v: V)
    requires lo <= k && k !in m
    ensures Listing(m[k := v], lo, k + 1) == Listing(m, lo, k) + [v]
  {
    IdsAppend(m, lo, k, v);
  }

  /** Ids outside the listed range do not affect the listing. */
  lemma {:induction false} IdsIgnoreOutside<V>(m: map<int, V>, m': map<int, V>, lo: int, hi: int)
    requires forall k :: lo <= k < hi ==> (k in m <==> k in m')
    ensures Ids(m, lo, hi) == Ids(m', lo, hi)
    decreases hi - lo
  {
    if lo < hi {
      IdsIgnoreOutside(m, m', lo + 1, hi);
    }
  }
}
