/** Python dictionaries as the redaction code uses them: an insertion-ordered
    association list whose keys are pairwise distinct. Assigning `d[k] = v`
    overwrites in place when `k` is present and appends otherwise; iteration
    follows insertion order. */
module Dicts {
  import opened Wrappers

  predicate DistinctKeys<K(==, !new), V>(d: seq<(K, V)>) {
    forall i, j :: 0 <= i < j < |d| ==> d[i].0 != d[j].0
  }

  type Dict<K(==, !new), V> = d: seq<(K, V)> | DistinctKeys(d) witness []

  /** The key set, `d.keys()`. */
  function Keys<K(==, !new), V>(d: seq<(K, V)>): (ks: set<K>)
    ensures forall i :: 0 <= i < |d| ==> d[i].0 in ks
    ensures forall k :: k in ks ==> exists i :: 0 <= i < |d| && d[i].0 == k
  {
    set i | 0 <= i < |d| :: d[i].0
  }

  /** `d.get(k)`. */
  function Get<K(==, !new), V>(d: seq<(K, V)>, k: K): (r: Option<V>)
    ensures r.None? <==> k !in Keys(d)
    decreases |d|
  {
    if d == [] then None
    else if d[0].0 == k then Some(d[0].1)
    else Get(d[1..], k)
  }

  /** In a dictionary, looking up the key at position i finds the value at
      position i. */
  lemma {:induction false} GetAt<K(!new), V>(d: Dict<K, V>, i: nat)
    requires i < |d|
    ensures Get(d, d[i].0) == Some(d[i].1)
    decreases i
  {
    if i > 0 {
      assert d[0].0 != d[i].0;
      var tail: Dict<K, V> := d[1..];
      GetAt(tail, i - 1);
    }
  }

  /** The position of a present key. */
  function IndexOf<K(==, !new), V>(d: seq<(K, V)>, k: K): (i: nat)
    requires k in Keys(d)
    ensures i < |d| && d[i].0 == k
    decreases |d|
  {
    if d[0].0 == k then 0
    else
      assert k in Keys(d[1..]) by {
        var j :| 0 <= j < |d| && d[j].0 == k;
        assert d[1..][j - 1] == d[j];
      }
      1 + IndexOf(d[1..], k)
  }

  /** `d[k] = v`: overwrite in place when present, append otherwise. */
  function Insert<K(==, !new), V>(d: Dict<K, V>, k: K, v: V): (r: Dict<K, V>)
    ensures k !in Keys(d) ==> r == d + [(k, v)]
    ensures k in Keys(d) ==> r == d[IndexOf(d, k) := (k, v)]
    ensures |r| == if k in Keys(d) then |d| else |d| + 1
    ensures Keys(r) == Keys(d) + {k}
  {
    if k in Keys(d) then
      var i := IndexOf(d, k);
      KeysOfUpdate(d, i, v);
      d[i := (k, v)]
    else
      KeysOfAppend(d, k, v);
      d + [(k, v)]
  }

  /** Overwriting the value at a position keeps the keys, and so keeps them
      distinct. */
  lemma KeysOfUpdate<K(!new), V>(d: seq<(K, V)>, i: nat, v: V)
    requires i < |d|
    ensures var r := d[i := (d[i].0, v)];
      && Keys(r) == Keys(d)
      && (DistinctKeys(d) ==> DistinctKeys(r))
  {
    var r := d[i := (d[i].0, v)];
    assert forall j :: 0 <= j < |d| ==> r[j].0 == d[j].0;
    forall x | x in Keys(r) ensures x in Keys(d) {
      var j :| 0 <= j < |r| && r[j].0 == x;
      assert d[j].0 == x;
    }
    forall x | x in Keys(d) ensures x in Keys(r) {
      var j :| 0 <= j < |d| && d[j].0 == x;
      assert r[j].0 == x;
    }
  }

  /** Appending a key adds it to the keys, and an absent key keeps them
      distinct. */
  lemma KeysOfAppend<K(!new), V>(d: seq<(K, V)>, k: K, v: V)
    ensures Keys(d + [(k, v)]) == Keys(d) + {k}
    ensures DistinctKeys(d) && k !in Keys(d) ==> DistinctKeys(d + [(k, v)])
  {
    var r := d + [(k, v)];
    assert forall j :: 0 <= j < |d| ==> r[j] == d[j];
    assert r[|d|].0 == k;
    forall x | x in Keys(r) ensures x in Keys(d) + {k} {
      var j :| 0 <= j < |r| && r[j].0 == x;
      if j < |d| { assert d[j].0 == x; }
    }
    forall x | x in Keys(d) + {k} ensures x in Keys(r) {
      if x != k {
        var j :| 0 <= j < |d| && d[j].0 == x;
        assert r[j].0 == x;
      }
    }
  }

  /** Two association lists with the same keys position by position have
      the same key set, and one is a dictionary when the other is. */
  lemma SameKeys<K(!new), V, W>(d: seq<(K, V)>, e: seq<(K, W)>)
    requires |d| == |e| && forall k :: 0 <= k < |d| ==> d[k].0 == e[k].0
    ensures Keys(d) == Keys(e)
    ensures DistinctKeys(e) ==> DistinctKeys(d)
  {
    forall x | x in Keys(d) ensures x in Keys(e) {
      var k :| 0 <= k < |d| && d[k].0 == x;
      assert e[k].0 == x;
    }
    forall x | x in Keys(e) ensures x in Keys(d) {
      var k :| 0 <= k < |e| && e[k].0 == x;
      assert d[k].0 == x;
    }
  }
}
