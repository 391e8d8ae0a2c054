/** Python's insertion-ordered `dict`, for the places where the scripts depend on its
    order: key/value pairs kept in the order their keys were first inserted, and
    assignment to an existing key replacing the value in place. */
module Dicts {

  type Dict<K, V> = seq<(K, V)>

  /** Some pair of `d` has key `k` (Python's `k in d`). */
  predicate HasKey<K(==), V>(d: Dict<K, V>, k: K) {
    exists i :: 0 <= i < |d| && d[i].0 == k
  }

  /** The keys in iteration order. */
  function Keys<K, V>(d: Dict<K, V>): (ks: seq<K>)
    ensures |ks| == |d|
    ensures forall i :: 0 <= i < |d| ==> ks[i] == d[i].0
  {
    seq(|d|, i requires 0 <= i < |d| => d[i].0)
  }

  /** No key appears twice: what every Python dict satisfies. */
  predicate DistinctKeys<K(==), V>(d: Dict<K, V>) {
    forall i, j :: 0 <= i < j < |d| ==> d[i].0 != d[j].0
  }

  /** The position of the first pair with key `k`, or -1 when there is none. */
  function IndexOf<K(==), V>(d: Dict<K, V>, k: K): (p: int)
    ensures -1 <= p < |d|
    ensures p == -1 <==> !HasKey(d, k)
    ensures 0 <= p ==> p < |d| && d[p].0 == k && forall j :: 0 <= j < p ==> d[j].0 != k
    decreases |d|
  {
    if |d| == 0 then -1
    else if d[0].0 == k then 0
    else
      var p := IndexOf(d[1..], k);
      if p == -1 then
        assert forall i :: 1 <= i < |d| ==> d[i] == d[1..][i - 1];
        -1
      else
        assert d[p + 1] == d[1..][p];
        assert forall j :: 1 <= j < p + 1 ==> d[j] == d[1..][j - 1];
        p + 1
  }

  /** `d[k]`. */
  function Get<K(==), V>(d: Dict<K, V>, k: K): V
    requires HasKey(d, k)
  {
    d[IndexOf(d, k)].1
  }

  /** In a dict, `Get` returns the value of the one pair carrying the key. */
  lemma GetAt<K, V>(d: Dict<K, V>, i: int)
    requires DistinctKeys(d) && 0 <= i < |d|
    ensures HasKey(d, d[i].0) && Get(d, d[i].0) == d[i].1
  {
  }

  /** `d[k] = v`: an existing key keeps its position and takes the new value; a new key
      goes to the end. */
  function Put<K(==,!new), V>(d: Dict<K, V>, k: K, v: V): (r: Dict<K, V>)
    requires DistinctKeys(d)
    ensures DistinctKeys(r)
    ensures HasKey(d, k) ==> |r| == |d| && Keys(r) == Keys(d)
    ensures !HasKey(d, k) ==> r == d + [(k, v)]
    ensures HasKey(r, k) && Get(r, k) == v
    ensures forall k' :: k' != k ==> (HasKey(r, k') <==> HasKey(d, k'))
    ensures forall k' :: k' != k && HasKey(d, k') ==> Get(r, k') == Get(d, k')
    ensures forall i :: 0 <= i < |r| ==> r[i] in d || r[i] == (k, v)
  {
    var p := IndexOf(d, k);
    if p < 0 then
      PutNew(d, k, v);
      d + [(k, v)]
    else
      PutExisting(d, p, k, v);
      d[p := (k, v)]
  }

  /** `Put` of a new key. */
  lemma PutNew<K(!new), V>(d: Dict<K, V>, k: K, v: V)
    requires DistinctKeys(d) && !HasKey(d, k)
    ensures var r := d + [(k, v)];
      && DistinctKeys(r) && HasKey(r, k) && Get(r, k) == v
      && (forall k' :: k' != k ==> (HasKey(r, k') <==> HasKey(d, k')))
      && (forall k' :: k' != k && HasKey(d, k') ==> Get(r, k') == Get(d, k'))
  {
    var r := d + [(k, v)];
    assert r[|d|].0 == k;
    GetAt(r, |d|);
    forall k' | HasKey(d, k') ensures HasKey(r, k') {
      var i :| 0 <= i < |d| && d[i].0 == k';
      assert r[i] == d[i];
    }
    forall k' | k' != k && HasKey(r, k') ensures HasKey(d, k') {
      var i :| 0 <= i < |r| && r[i].0 == k';
      assert r[i] == d[i];
    }
    forall k' | k' != k && HasKey(d, k') ensures Get(r, k') == Get(d, k') {
      var i :| 0 <= i < |d| && d[i].0 == k';
      GetAt(d, i);
      GetAt(r, i);
    }
  }

  /** `Put` of a key held at position `p`. */
  lemma PutExisting<K(!new), V>(d: Dict<K, V>, p: int, k: K, v: V)
    requires DistinctKeys(d) && 0 <= p < |d| && d[p].0 == k
    ensures var r := d[p := (k, v)];
      && DistinctKeys(r) && Keys(r) == Keys(d) && HasKey(r, k) && Get(r, k) == v
      && (forall k' :: k' != k ==> (HasKey(r, k') <==> HasKey(d, k')))
      && (forall k' :: k' != k && HasKey(d, k') ==> Get(r, k') == Get(d, k'))
  {
    var r := d[p := (k, v)];
    assert Keys(r) == Keys(d);
    GetAt(r, p);
    forall k' | k' != k && HasKey(d, k') ensures Get(r, k') == Get(d, k') {
      var i :| 0 <= i < |d| && d[i].0 == k';
      GetAt(d, i);
      GetAt(r, i);
    }
    forall k' | k' != k && HasKey(r, k') ensures HasKey(d, k') {
      var i :| 0 <= i < |r| && r[i].0 == k';
      assert d[i].0 == k';
    }
  }

  /** The pairs of `ps` assigned one after the other into `d`, as a loop of `d[k] = v`. */
  function PutAll<K(==,!new), V>(d: Dict<K, V>, ps: seq<(K, V)>): (r: Dict<K, V>)
    requires DistinctKeys(d)
    ensures DistinctKeys(r)
    ensures forall k :: HasKey(r, k) <==> HasKey(d, k) || HasKey(ps, k)
    ensures forall i :: 0 <= i < |r| ==> r[i] in d || r[i] in ps
    decreases |ps|
  {
    if |ps| == 0 then d
    else
      var init := ps[..|ps| - 1];
      var r := Put(PutAll(d, init), ps[|ps| - 1].0, ps[|ps| - 1].1);
      forall k | HasKey(ps, k) ensures HasKey(r, k) {
        var i :| 0 <= i < |ps| && ps[i].0 == k;
        if i < |ps| - 1 {
          assert init[i].0 == k;
        }
      }
      forall k | HasKey(init, k) ensures HasKey(ps, k) {
        var i :| 0 <= i < |init| && init[i].0 == k;
        assert ps[i].0 == k;
      }
      r
  }

  /** The value of the last pair in `ps` with key `k`. */
  function LastValue<K(==), V>(ps: seq<(K, V)>, k: K): V
    requires HasKey(ps, k)
    decreases |ps|
  {
    if ps[|ps| - 1].0 == k then ps[|ps| - 1].1
    else
      var init := ps[..|ps| - 1];
      assert HasKey(init, k) by {
        var i :| 0 <= i < |ps| && ps[i].0 == k;
        assert init[i].0 == k;
      }
      LastValue(init, k)
  }

  /** Last writer wins: after assigning all pairs of `ps`, a key of `ps` holds the value of
      its last pair. */
  lemma {:induction false} PutAllLastWins<K(!new), V>(d: Dict<K, V>, ps: seq<(K, V)>, k: K)
    requires DistinctKeys(d) && HasKey(ps, k)
    ensures HasKey(PutAll(d, ps), k)
    ensures Get(PutAll(d, ps), k) == LastValue(ps, k)
    decreases |ps|
  {
    var init := ps[..|ps| - 1];
    if ps[|ps| - 1].0 != k {
      assert HasKey(init, k) by {
        var i :| 0 <= i < |ps| && ps[i].0 == k;
        assert init[i].0 == k;
      }
      PutAllLastWins(d, init, k);
    }
  }

  /** Keys that `ps` does not mention keep the value they had in `d`. */
  lemma {:induction false} PutAllKeepsOthers<K(!new), V>(d: Dict<K, V>, ps: seq<(K, V)>, k: K)
    requires DistinctKeys(d) && HasKey(d, k) && !HasKey(ps, k)
    ensures Get(PutAll(d, ps), k) == Get(d, k)
    decreases |ps|
  {
    if |ps| > 0 {
      var init := ps[..|ps| - 1];
      forall i | 0 <= i < |init| ensures init[i].0 != k {
        assert init[i] == ps[i];
      }
      PutAllKeepsOthers(d, init, k);
    }
  }

  /** The last pair for `k` in `a + b` lies in `b` whenever `b` has one. */
  lemma {:induction false} LastValueAppend<K, V>(a: seq<(K, V)>, b: seq<(K, V)>, k: K)
    requires HasKey(b, k)
    ensures HasKey(a + b, k) && LastValue(a + b, k) == LastValue(b, k)
    decreases |b|
  {
    var i :| 0 <= i < |b| && b[i].0 == k;
    assert (a + b)[|a| + i].0 == k;
    if b[|b| - 1].0 != k {
      var binit := b[..|b| - 1];
      assert binit[i].0 == k;
      LastValueAppend(a, binit, k);
      assert (a + b)[..|a + b| - 1] == a + binit;
    }
  }

  /** A key is in a concatenation exactly when it is in one of the parts. */
  lemma HasKeyConcat<K, V>(a: seq<(K, V)>, b: seq<(K, V)>, k: K)
    ensures HasKey(a + b, k) <==> HasKey(a, k) || HasKey(b, k)
  {
    if HasKey(a + b, k) {
      var i :| 0 <= i < |a + b| && (a + b)[i].0 == k;
      if i >= |a| {
        assert b[i - |a|].0 == k;
      }
    }
    if HasKey(a, k) {
      var i :| 0 <= i < |a| && a[i].0 == k;
      assert (a + b)[i].0 == k;
    }
    if HasKey(b, k) {
      var i :| 0 <= i < |b| && b[i].0 == k;
      assert (a + b)[|a| + i].0 == k;
    }
  }
}
