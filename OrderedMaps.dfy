/**
 * A Python `dict` (and `collections.OrderedDict`) as the sequence of its
 * entries in insertion order. Assigning `d[k] = v` replaces the value of an
 * existing key where it stands and appends a new key at the end.
 */
module OrderedMaps {
  import opened Wrappers

  type Dict<K, V> = seq<(K, V)>

  /** The keys in insertion order (`list(d.keys())`). */
  function Keys<K, V>(d: Dict<K, V>): (ks: seq<K>)
    ensures |ks| == |d|
    ensures forall i :: 0 <= i < |d| ==> ks[i] == d[i].0
  {
    seq(|d|, i requires 0 <= i < |d| => d[i].0)
  }

  ghost predicate DistinctKeys<K, V>(d: Dict<K, V>) {
    forall i, j :: 0 <= i < j < |d| ==> d[i].0 != d[j].0
  }

  /** The position of the first entry with key `k`, or `|d|` if none. */
  function Find<K(==), V>(d: Dict<K, V>, k: K): (i: nat)
    ensures i <= |d|
    ensures i < |d| ==> d[i].0 == k
    ensures forall j :: 0 <= j < i ==> d[j].0 != k
  {
    if d == [] then 0
    else if d[0].0 == k then 0
    else 1 + Find(d[1..], k)
  }

  /** `d.get(k)`. */
  function Get<K(==), V>(d: Dict<K, V>, k: K): (r: Option<V>)
    ensures r.None? <==> k !in Keys(d)
    ensures r.Some? ==> exists i :: 0 <= i < |d| && d[i] == (k, r.value)
  {
    var i := Find(d, k);
    if i < |d| then
      assert d[i] == (k, d[i].1);
      Some(d[i].1)
    else
      assert forall j :: 0 <= j < |d| ==> Keys(d)[j] != k;
      None
  }

  /** `d[k] = v`, returning the dictionary afterwards. */
  function Put<K(==), V>(d: Dict<K, V>, k: K, v: V): (r: Dict<K, V>)
    ensures Keys(r) == if k in Keys(d) then Keys(d) else Keys(d) + [k]
    ensures |r| == if k in Keys(d) then |d| else |d| + 1
    ensures DistinctKeys(d) ==> DistinctKeys(r)
  {
    var i := Find(d, k);
    if i < |d| then
      var r := d[i := (k, v)];
      assert Keys(r) == Keys(d);
      r
    else
      assert k !in Keys(d) by {
        assert forall j :: 0 <= j < |d| ==> Keys(d)[j] != k;
      }
      var r := d + [(k, v)];
      assert Keys(r) == Keys(d) + [k];
      r
  }

  /** `Find` is characterised by its contract. */
  lemma FindIs<K, V>(d: Dict<K, V>, k: K, i: nat)
    requires i <= |d|
    requires i < |d| ==> d[i].0 == k
    requires forall j :: 0 <= j < i ==> d[j].0 != k
    ensures Find(d, k) == i
  {
  }

  /** After `d[k] = v`, looking up `k` gives `v` and every other key keeps
      its value. */
  lemma GetPut<K, V>(d: Dict<K, V>, k: K, v: V, k': K)
    ensures Get(Put(d, k, v), k') == if k' == k then Some(v) else Get(d, k')
  {
    var i := Find(d, k);
    var r := Put(d, k, v);
    if i < |d| {
      assert r == d[i := (k, v)];
      if k' == k {
        FindIs(r, k, i);
      } else {
        var f := Find(d, k');
        assert f != i;
        FindIs(r, k', f);
      }
    } else {
      assert r == d + [(k, v)];
      if k' == k {
        FindIs(r, k, |d|);
      } else {
        var f := Find(d, k');
        if f < |d| {
          FindIs(r, k', f);
        } else {
          FindIs(r, k', |r|);
        }
      }
    }
  }

  /** Assigning a new key appends it. */
  lemma PutNew<K, V>(d: Dict<K, V>, k: K, v: V)
    requires forall j :: 0 <= j < |d| ==> d[j].0 != k
    ensures Put(d, k, v) == d + [(k, v)]
  {
    FindIs(d, k, |d|);
  }

  /** Assigning an existing key replaces its value where it stands. */
  lemma PutExisting<K, V>(d: Dict<K, V>, k: K, v: V, i: nat)
    requires i < |d| && d[i].0 == k
    requires forall j :: 0 <= j < i ==> d[j].0 != k
    ensures Put(d, k, v) == d[i := (k, v)]
  {
    FindIs(d, k, i);
  }
}
