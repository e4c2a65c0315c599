/**
 * PHP's ordered arrays with string keys, as association lists kept in
 * insertion order. No key occurs twice.
 */
module PhpArrays {
  import opened Wrappers

  predicate DistinctKeys<V>(a: seq<(string, V)>) {
    forall i, j | 0 <= i < j < |a| :: a[i].0 != a[j].0
  }

  /** A PHP array: key/value pairs in insertion order, keys distinct. */
  type Assoc<V> = a: seq<(string, V)> | DistinctKeys(a) witness []

  /** array_key_exists($k, $a): true even when the stored value is null. */
  predicate HasKey<V>(a: seq<(string, V)>, k: string)
    ensures HasKey(a, k) <==> exists i | 0 <= i < |a| :: a[i].0 == k
  {
    k in Keys(a)
  }

  /** array_keys($a), in insertion order. */
  function Keys<V>(a: seq<(string, V)>): (ks: seq<string>)
    ensures |ks| == |a|
    ensures forall i | 0 <= i < |a| :: ks[i] == a[i].0
  {
    seq(|a|, i requires 0 <= i < |a| => a[i].0)
  }

  /** $a[$k] when the key is present, None when it is missing. */
  function Get<V>(a: Assoc<V>, k: string): (r: Option<V>)
    ensures r.Some? <==> HasKey(a, k)
    ensures forall i | 0 <= i < |a| && a[i].0 == k :: r == Some(a[i].1)
  {
    if |a| == 0 then None
    else if a[0].0 == k then Some(a[0].1)
    else Get(a[1..], k)
  }

  /**
   * $a[$k] = $v: a present key keeps its position and gets the new value,
   * a missing key is appended at the end.
   */
  function Put<V>(a: Assoc<V>, k: string, v: V): (r: Assoc<V>)
    ensures Keys(r) == if HasKey(a, k) then Keys(a) else Keys(a) + [k]
    ensures forall i | 0 <= i < |a| :: r[i] == if a[i].0 == k then (k, v) else a[i]
    ensures !HasKey(a, k) ==> r == a + [(k, v)]
  {
    if HasKey(a, k) then
      var r := seq(|a|, i requires 0 <= i < |a| => if a[i].0 == k then (k, v) else a[i]);
      assert Keys(r) == Keys(a);
      r
    else
      var r := a + [(k, v)];
      assert Keys(r) == Keys(a) + [k];
      r
  }

  /** After $a[$k] = $v, reading k gives v and every other key reads as before. */
  lemma GetPut<V>(a: Assoc<V>, k: string, v: V)
    ensures Get(Put(a, k, v), k) == Some(v)
    ensures forall k' | k' != k :: Get(Put(a, k, v), k') == Get(a, k')
  {
    var r := Put(a, k, v);
    assert k in Keys(r);
    var j :| 0 <= j < |r| && Keys(r)[j] == k;
    assert r[j] == (k, v);
    forall k' | k' != k ensures Get(r, k') == Get(a, k') {
      if k' in Keys(a) {
        var i :| 0 <= i < |a| && Keys(a)[i] == k';
        assert r[i] == a[i];
      } else {
        assert k' !in Keys(r);
      }
    }
  }

  /** The sum of the values of an array of counters. */
  function Total(a: seq<(string, nat)>): nat {
    if |a| == 0 then 0 else a[0].1 + Total(a[1..])
  }

  /** Overwriting one counter changes the sum by the difference only. */
  lemma {:induction false} TotalPut(a: Assoc<nat>, k: string, v: nat)
    ensures Total(Put(a, k, v)) == Total(a) - Get(a, k).GetOr(0) + v
  {
    if |a| == 0 {
    } else if a[0].0 == k {
      assert Put(a, k, v)[1..] == a[1..];
    } else {
      PutTail(a, k, v);
      TotalPut(a[1..], k, v);
    }
  }

  /** Writing a key other than the first one leaves the first pair in front of the rest's write. */
  lemma PutTail(a: Assoc<nat>, k: string, v: nat)
    requires |a| > 0 && a[0].0 != k
    ensures Put(a, k, v) == [a[0]] + Put(a[1..], k, v)
    ensures Get(a, k) == Get(a[1..], k)
  {
    var r, t := Put(a, k, v), Put(a[1..], k, v);
    assert HasKey(a, k) == HasKey(a[1..], k);
    assert |r| == |t| + 1;
    forall i | 0 <= i < |t| ensures r[i + 1] == t[i] {
      if i < |a| - 1 {
        assert a[1..][i] == a[i + 1];
      }
    }
  }
}
