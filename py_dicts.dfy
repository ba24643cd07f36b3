/** Python dictionaries, which remember insertion order, as sequences of
    key-value pairs. */
module PyDicts {
  import opened Wrappers

  /** The items of a dict, in insertion order. */
  type Dict<K, V> = seq<(K, V)>

  /** A real dict never holds a key twice. */
  predicate DistinctKeys<K(==), V>(d: Dict<K, V>)
  {
    forall i, j :: 0 <= i < j < |d| ==> d[i].0 != d[j].0
  }

  /** `list(d.keys())` */
  function Keys<K, V>(d: Dict<K, V>): (ks: seq<K>)
    ensures |ks| == |d|
    ensures forall i :: 0 <= i < |d| ==> ks[i] == d[i].0
  {
    seq(|d|, i requires 0 <= i < |d| => d[i].0)
  }

  /** `d.get(k)`: the value stored under `k`, or `None`. */
  function Get<K(==), V>(d: Dict<K, V>, k: K): (r: Option<V>)
    ensures r.None? <==> k !in Keys(d)
    ensures r.Some? ==> (k, r.value) in d
  {
    if d == [] then None
    else if d[0].0 == k then Some(d[0].1)
    else
      assert Keys(d) == [d[0].0] + Keys(d[1..]);
      Get(d[1..], k)
  }

  /** `d.get` finds the first item with the key it is given. */
  lemma {:induction false} GetAt<K, V>(d: Dict<K, V>, i: nat)
    requires i < |d| && forall j :: 0 <= j < i ==> d[j].0 != d[i].0
    ensures Get(d, d[i].0) == Some(d[i].1)
  {
    if i > 0 {
      var tail := d[1..];
      assert tail[i - 1] == d[i];
      forall j | 0 <= j < i - 1 ensures tail[j].0 != tail[i - 1].0 {
        assert tail[j] == d[j + 1];
      }
      GetAt(tail, i - 1);
    }
  }

  /** `d[k] = v`: an existing key keeps its place and gets the new value; a new
      key is appended. */
  function Put<K(==), V>(d: Dict<K, V>, k: K, v: V): (r: Dict<K, V>)
    ensures k !in Keys(d) ==> r == d + [(k, v)]
    ensures Keys(r) == if k in Keys(d) then Keys(d) else Keys(d) + [k]
  {
    if d == [] then [(k, v)]
    else if d[0].0 == k then
      assert Keys([(k, v)] + d[1..]) == Keys(d);
      [(k, v)] + d[1..]
    else
      var rest := Put(d[1..], k, v);
      KeysCons(d[0], d[1..]);
      KeysCons(d[0], rest);
      assert k !in Keys(d[1..]) ==> [d[0]] + (d[1..] + [(k, v)]) == d + [(k, v)];
      [d[0]] + rest
  }

  /** Assignment keeps a dict's keys distinct. */
  lemma PutDistinct<K, V>(d: Dict<K, V>, k: K, v: V)
    requires DistinctKeys(d)
    ensures DistinctKeys(Put(d, k, v))
  {
    var r := Put(d, k, v);
    forall i, j | 0 <= i < j < |r| ensures r[i].0 != r[j].0 {
      assert Keys(r)[i] == r[i].0 && Keys(r)[j] == r[j].0;
      if k in Keys(d) {
        assert Keys(d)[i] == d[i].0 && Keys(d)[j] == d[j].0;
      } else if j == |d| {
        assert r[i] == d[i];
      } else {
        assert r[i] == d[i] && r[j] == d[j];
      }
    }
  }

  lemma KeysCons<K, V>(p: (K, V), d: Dict<K, V>)
    ensures Keys([p] + d) == [p.0] + Keys(d)
  {
  }

  /** `d.pop(k, None)` with the popped value discarded: every item with key `k`
      is removed and the others keep their order. */
  function Pop<K(==,!new), V>(d: Dict<K, V>, k: K): (r: Dict<K, V>)
    ensures k !in Keys(r)
    ensures k !in Keys(d) ==> r == d
    ensures forall k' :: k' != k ==> Get(r, k') == Get(d, k')
  {
    if d == [] then []
    else
      var rest := Pop(d[1..], k);
      assert Keys(d) == [d[0].0] + Keys(d[1..]);
      if d[0].0 == k then rest
      else
        assert Keys([d[0]] + rest) == [d[0].0] + Keys(rest);
        [d[0]] + rest
  }

  /** Assigning to the key of the first item that has it replaces that one
      item. */
  lemma {:induction false} PutAt<K, V>(d: Dict<K, V>, p: nat, v: V)
    requires p < |d| && forall j :: 0 <= j < p ==> d[j].0 != d[p].0
    ensures Put(d, d[p].0, v) == d[p := (d[p].0, v)]
  {
    var k := d[p].0;
    if p == 0 {
      assert d[p := (k, v)] == [(k, v)] + d[1..];
    } else {
      var tail := d[1..];
      assert tail[p - 1] == d[p];
      forall j | 0 <= j < p - 1 ensures tail[j].0 != tail[p - 1].0 {
        assert tail[j] == d[j + 1];
      }
      PutAt(tail, p - 1, v);
      assert Put(d, k, v) == [d[0]] + Put(tail, k, v);
      ConsUpdate(d, p, (k, v));
    }
  }

  lemma ConsUpdate<T>(d: seq<T>, p: nat, x: T)
    requires 0 < p < |d|
    ensures [d[0]] + d[1..][p - 1 := x] == d[p := x]
  {
    var l, r := [d[0]] + d[1..][p - 1 := x], d[p := x];
    assert |l| == |r|;
    forall i | 0 <= i < |l| ensures l[i] == r[i] {
      if i > 0 {
        assert l[i] == d[1..][p - 1 := x][i - 1];
      }
    }
  }

  /** Appending an item leaves every other key's lookup as it was, and a new
      key is found with its value. */
  lemma {:induction false} GetSnoc<K, V>(d: Dict<K, V>, p: (K, V), k: K)
    ensures k != p.0 ==> Get(d + [p], k) == Get(d, k)
    ensures k == p.0 && k !in Keys(d) ==> Get(d + [p], k) == Some(p.1)
  {
    if d != [] {
      assert (d + [p])[1..] == d[1..] + [p];
      assert Keys(d) == [d[0].0] + Keys(d[1..]);
      GetSnoc(d[1..], p, k);
    }
  }
}
