/** An insertion-ordered dictionary, the shape of a Python `dict`: a list of key/value
    pairs whose keys are pairwise distinct. Assigning to an absent key appends, assigning
    to a present key keeps its position, and deleting a key closes the gap. */
module Dict {
  import opened Wrappers

  ghost predicate UniqueKeys<K, V>(d: seq<(K, V)>) {
    forall i, j :: 0 <= i < j < |d| ==> d[i].0 != d[j].0
  }

  type Dict<K, V> = d: seq<(K, V)> | UniqueKeys(d) witness []

  /** The keys of `d` in insertion order. */
  function Keys<K, V>(d: seq<(K, V)>): (ks: seq<K>)
    ensures |ks| == |d|
    ensures forall i :: 0 <= i < |d| ==> ks[i] == d[i].0
  {
    seq(|d|, i requires 0 <= i < |d| => d[i].0)
  }

  /** A dictionary is a pair list whose key list repeats no key. */
  lemma UniqueKeysIff<K, V>(d: seq<(K, V)>)
    ensures UniqueKeys(d) <==> forall i, j :: 0 <= i < |Keys(d)| && 0 <= j < |Keys(d)| && i != j ==> Keys(d)[i] != Keys(d)[j]
  {
    if UniqueKeys(d) {
      forall i, j | 0 <= i < |Keys(d)| && 0 <= j < |Keys(d)| && i != j ensures Keys(d)[i] != Keys(d)[j] {
        if i > j {
          assert d[j].0 != d[i].0;
        }
      }
    }
    if forall i, j :: 0 <= i < |Keys(d)| && 0 <= j < |Keys(d)| && i != j ==> Keys(d)[i] != Keys(d)[j] {
      forall i, j | 0 <= i < j < |d| ensures d[i].0 != d[j].0 {
        assert Keys(d)[i] != Keys(d)[j];
      }
    }
  }

  /** `k` is a key exactly when some pair stores it. */
  lemma KeysMember<K, V>(d: seq<(K, V)>, k: K)
    ensures k in Keys(d) <==> exists v :: (k, v) in d
  {
    if k in Keys(d) {
      var i :| 0 <= i < |d| && Keys(d)[i] == k;
      assert (k, d[i].1) == d[i];
    }
    if exists v :: (k, v) in d {
      var v :| (k, v) in d;
      var i :| 0 <= i < |d| && d[i] == (k, v);
      assert Keys(d)[i] == k;
    }
  }

  /** The position of the first pair whose key is `k`. */
  function IndexOf<K(==), V>(d: seq<(K, V)>, k: K): (i: nat)
    requires k in Keys(d)
    ensures i < |d| && d[i].0 == k
    ensures forall j :: 0 <= j < i ==> d[j].0 != k
  {
    if d[0].0 == k then 0
    else
      assert Keys(d) == [d[0].0] + Keys(d[1..]);
      1 + IndexOf(d[1..], k)
  }

  /** The value stored under `k`, if any (Python's `d[k]` guarded by `k in d`). */
  function Get<K(==), V>(d: seq<(K, V)>, k: K): (r: Option<V>)
    ensures r.Some? <==> k in Keys(d)
    ensures r.Some? ==> (k, r.value) in d
  {
    if k in Keys(d) then Some(d[IndexOf(d, k)].1) else None
  }

  /** In a dictionary, `k` maps to `v` exactly when the pair `(k, v)` is stored. */
  lemma GetIff<K, V>(d: Dict<K, V>, k: K, v: V)
    ensures Get(d, k) == Some(v) <==> (k, v) in d
  {
    if (k, v) in d {
      var i :| 0 <= i < |d| && d[i] == (k, v);
      assert Keys(d)[i] == k;
      assert IndexOf(d, k) == i;
    }
  }

  /** `d[k] = v`: an absent key is appended, a present key keeps its position. */
  function Put<K(==,!new), V>(d: Dict<K, V>, k: K, v: V): (r: Dict<K, V>)
    ensures Get(r, k) == Some(v)
    ensures forall k' :: k' != k ==> Get(r, k') == Get(d, k')
    ensures forall k' :: k' in Keys(r) <==> k' in Keys(d) || k' == k
    ensures k !in Keys(d) ==> r == d + [(k, v)]
    ensures k in Keys(d) ==> Keys(r) == Keys(d)
  {
    if k in Keys(d) then
      var i := IndexOf(d, k);
      Overwrite(d, i, v);
      d[i := (k, v)]
    else
      Append(d, k, v);
      d + [(k, v)]
  }

  /** Overwriting the value at position `i` keeps every key where it was. */
  lemma Overwrite<K, V>(d: Dict<K, V>, i: nat, v: V)
    requires i < |d|
    ensures UniqueKeys(d[i := (d[i].0, v)])
    ensures Keys(d[i := (d[i].0, v)]) == Keys(d)
    ensures forall k' :: k' in Keys(d) && k' != d[i].0 ==> Get(d[i := (d[i].0, v)], k') == Get(d, k')
  {
    var r := d[i := (d[i].0, v)];
    assert Keys(r) == Keys(d);
    forall k' | k' in Keys(d) && k' != d[i].0 ensures Get(r, k') == Get(d, k') {
      assert IndexOf(r, k') == IndexOf(d, k');
    }
  }

  /** Appending a pair with a new key keeps the position of every other key. */
  lemma Append<K, V>(d: Dict<K, V>, k: K, v: V)
    requires k !in Keys(d)
    ensures UniqueKeys(d + [(k, v)])
    ensures Keys(d + [(k, v)]) == Keys(d) + [k]
    ensures forall k' :: k' in Keys(d) ==> Get(d + [(k, v)], k') == Get(d, k')
  {
    var r := d + [(k, v)];
    assert Keys(r) == Keys(d) + [k];
    forall k' | k' in Keys(d) ensures Get(r, k') == Get(d, k') {
      assert IndexOf(r, k') == IndexOf(d, k');
    }
  }

  /** Dropping the pair at position `i` keeps the keys distinct and moves every later
      pair one place to the front. */
  lemma CutAt<K, V>(d: Dict<K, V>, i: nat)
    requires i < |d|
    ensures UniqueKeys(d[..i] + d[i + 1..])
    ensures Keys(d[..i] + d[i + 1..]) == Keys(d)[..i] + Keys(d)[i + 1..]
  {
    var r := d[..i] + d[i + 1..];
    forall a, b | 0 <= a < b < |r| ensures r[a].0 != r[b].0 {
      var a' := if a < i then a else a + 1;
      var b' := if b < i then b else b + 1;
      assert r[a] == d[a'] && r[b] == d[b'];
    }
  }

  /** After cutting position `i`, a key found before it keeps its position and a key
      found after it moves one place forward. */
  lemma CutAtGet<K, V>(d: Dict<K, V>, i: nat, k: K)
    requires i < |d| && k != d[i].0
    ensures Get(d[..i] + d[i + 1..], k) == Get(d, k)
  {
    CutAt(d, i);
    var r: Dict<K, V> := d[..i] + d[i + 1..];
    if k in Keys(d) {
      var j := IndexOf(d, k);
      var j' := if j < i then j else j - 1;
      assert r[j'] == d[j];
      IndexOfAt(r, j');
    } else {
      assert k !in Keys(r);
    }
  }

  /** In a dictionary the key at position `j` is found at `j`. */
  lemma IndexOfAt<K, V>(d: Dict<K, V>, j: nat)
    requires j < |d|
    ensures d[j].0 in Keys(d) && IndexOf(d, d[j].0) == j
  {
    assert Keys(d)[j] == d[j].0;
  }

  /** `del d[k]`: the pair under `k` is removed and the others keep their order. */
  function Remove<K(==,!new), V>(d: Dict<K, V>, k: K): (r: Dict<K, V>)
    ensures k !in Keys(r)
    ensures forall k' :: k' != k ==> Get(r, k') == Get(d, k')
    ensures forall k' :: k' in Keys(r) <==> k' in Keys(d) && k' != k
    ensures k !in Keys(d) ==> r == d
    ensures k in Keys(d) ==> r == d[..IndexOf(d, k)] + d[IndexOf(d, k) + 1..]
  {
    if k in Keys(d) then
      var i := IndexOf(d, k);
      CutAt(d, i);
      var r: Dict<K, V> := d[..i] + d[i + 1..];
      assert forall k' :: k' != k ==> Get(r, k') == Get(d, k') by {
        forall k' | k' != k ensures Get(r, k') == Get(d, k') {
          CutAtGet(d, i, k');
        }
      }
      r
    else
      d
  }
}
