/** Enumerating a table by primary key. A table is a map from integer id to
    row; listing it yields the ids present in a key range, in ascending order,
    which is the order in which the store handed those ids out. */
module Listing {

  /** The keys of `m` within [lo, hi), ascending. */
  function KeysFrom<V>(m: map<nat, V>, lo: nat, hi: nat): (r: seq<nat>)
    ensures forall i :: 0 <= i < |r| ==> r[i] in m && lo <= r[i] < hi
    ensures forall i, j :: 0 <= i < j < |r| ==> r[i] < r[j]
    ensures forall k :: k in m && lo <= k < hi ==> k in r
    decreases hi - lo
  {
    if lo >= hi then []
    else if lo in m then [lo] + KeysFrom(m, lo + 1, hi)
    else KeysFrom(m, lo + 1, hi)
  }

  /** The rows of `m` stored under the keys `ks`, in the order of `ks`. */
  function RowsAt<V>(m: map<nat, V>, ks: seq<nat>): (r: seq<V>)
    requires forall i :: 0 <= i < |ks| ==> ks[i] in m
    ensures |r| == |ks|
    ensures forall i :: 0 <= i < |ks| ==> r[i] == m[ks[i]]
  {
    seq(|ks|, i requires 0 <= i < |ks| => m[ks[i]])
  }

  /** All rows of `m` whose keys lie in [lo, hi), by ascending key. */
  function RowsFrom<V>(m: map<nat, V>, lo: nat, hi: nat): seq<V> {
    RowsAt(m, KeysFrom(m, lo, hi))
  }

  /** Every row whose key lies in range is listed. */
  lemma RowsFromHas<V>(m: map<nat, V>, lo: nat, hi: nat, k: nat)
    requires k in m && lo <= k < hi
    ensures m[k] in RowsFrom(m, lo, hi)
  {
    var ks := KeysFrom(m, lo, hi);
    assert k in ks;
    var i :| 0 <= i < |ks| && ks[i] == k;
    assert RowsFrom(m, lo, hi)[i] == m[k];
  }

  ghost function KeysIn<V>(m: map<nat, V>, lo: nat, hi: nat): set<nat> {
    set k | k in m && lo <= k < hi
  }

  /** The listing has one entry per key in range: no key is listed twice. */
  lemma {:induction false} KeysFromSize<V>(m: map<nat, V>, lo: nat, hi: nat)
    ensures |KeysFrom(m, lo, hi)| == |KeysIn(m, lo, hi)|
    decreases hi - lo
  {
    if lo < hi {
      KeysFromSize(m, lo + 1, hi);
      KeysInStep(m, lo, hi);
    } else {
      assert KeysIn(m, lo, hi) == {};
    }
  }

  lemma KeysInStep<V>(m: map<nat, V>, lo: nat, hi: nat)
    requires lo < hi
    ensures lo in m ==> KeysIn(m, lo, hi) == {lo} + KeysIn(m, lo + 1, hi) && lo !in KeysIn(m, lo + 1, hi)
    ensures lo !in m ==> KeysIn(m, lo, hi) == KeysIn(m, lo + 1, hi)
  {
  }

  /** When every key of `m` lies in range, the listing is as long as the table. */
  lemma KeysFromCount<V>(m: map<nat, V>, lo: nat, hi: nat)
    requires forall k :: k in m ==> lo <= k < hi
    ensures |KeysFrom(m, lo, hi)| == |m|
  {
    KeysFromSize(m, lo, hi);
    assert KeysIn(m, lo, hi) == m.Keys;
  }

  /** When every key of `m` lies in range, every row is listed, once. */
  lemma RowsFromComplete<V>(m: map<nat, V>, lo: nat, hi: nat)
    requires forall k :: k in m ==> lo <= k < hi
    ensures |RowsFrom(m, lo, hi)| == |m|
    ensures forall k :: k in m ==> m[k] in RowsFrom(m, lo, hi)
  {
    KeysFromCount(m, lo, hi);
    forall k | k in m
      ensures m[k] in RowsFrom(m, lo, hi)
    {
      RowsFromHas(m, lo, hi, k);
    }
  }

  /** A row added under the key just past the range is listed last. */
  lemma {:induction false} KeysFromExtend<V>(m: map<nat, V>, lo: nat, hi: nat, v: V)
    requires lo <= hi
    ensures KeysFrom(m[hi := v], lo, hi + 1) == KeysFrom(m, lo, hi) + [hi]
    decreases hi - lo
  {
    var m' := m[hi := v];
    if lo < hi {
      KeysFromExtend(m, lo + 1, hi, v);
      if lo in m {
        calc {
          KeysFrom(m', lo, hi + 1);
          [lo] + KeysFrom(m', lo + 1, hi + 1);
          [lo] + (KeysFrom(m, lo + 1, hi) + [hi]);
          ([lo] + KeysFrom(m, lo + 1, hi)) + [hi];
        }
      }
    } else {
      assert KeysFrom(m', lo, hi + 1) == [hi] + KeysFrom(m', hi + 1, hi + 1);
    }
  }

  /** Hence the rows listed after such an addition are the old listing plus the new row. */
  lemma RowsFromExtend<V>(m: map<nat, V>, lo: nat, hi: nat, v: V)
    requires lo <= hi
    ensures RowsFrom(m[hi := v], lo, hi + 1) == RowsFrom(m, lo, hi) + [v]
  {
    KeysFromExtend(m, lo, hi, v);
    var ks := KeysFrom(m, lo, hi);
    var m' := m[hi := v];
    assert forall i :: 0 <= i < |ks| ==> m'[ks[i]] == m[ks[i]];
  }

  /** Extending the range by a key that is absent lists the same keys. */
  lemma {:induction false} KeysFromSkip<V>(m: map<nat, V>, lo: nat, hi: nat)
    requires lo <= hi
    requires hi !in m
    ensures KeysFrom(m, lo, hi + 1) == KeysFrom(m, lo, hi)
    decreases hi - lo
  {
    if lo < hi {
      KeysFromSkip(m, lo + 1, hi);
    } else {
      assert KeysFrom(m, lo, hi + 1) == KeysFrom(m, lo + 1, hi + 1);
    }
  }

  /** Hence the same rows. */
  lemma RowsFromSkip<V>(m: map<nat, V>, lo: nat, hi: nat)
    requires lo <= hi
    requires hi !in m
    ensures RowsFrom(m, lo, hi + 1) == RowsFrom(m, lo, hi)
  {
    KeysFromSkip(m, lo, hi);
  }
}
