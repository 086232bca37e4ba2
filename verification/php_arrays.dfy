/**
 * PHP arrays with string keys, as the source uses them: ordered lists of
 * key/value pairs with unique keys, where writing an existing key keeps its
 * position and writing a new key appends it.
 */
module PhpArrays {
  import opened Wrappers

  type Assoc<V> = seq<(string, V)>

  /** `array_keys($a)`. */
  function Keys<V>(a: Assoc<V>): (ks: seq<string>)
    ensures |ks| == |a|
    ensures forall i :: 0 <= i < |a| ==> ks[i] == a[i].0
  {
    seq(|a|, i requires 0 <= i < |a| => a[i].0)
  }

  /** No key occurs twice, as in every PHP array. */
  ghost predicate UniqueKeys<V>(a: Assoc<V>) {
    forall i, j :: 0 <= i < j < |a| ==> a[i].0 != a[j].0
  }

  predicate HasKey<V>(a: Assoc<V>, k: string) {
    exists i :: 0 <= i < |a| && a[i].0 == k
  }

  /** Where key `k` sits. */
  function KeyIndex<V>(a: Assoc<V>, k: string): (i: nat)
    requires HasKey(a, k)
    ensures i < |a| && a[i].0 == k
    ensures forall j :: 0 <= j < i ==> a[j].0 != k
  {
    if a[0].0 == k then 0
    else
      assert HasKey(a[1..], k) by {
        var j :| 0 <= j < |a| && a[j].0 == k;
        assert a[1..][j - 1] == a[j];
      }
      1 + KeyIndex(a[1..], k)
  }

  /** `$a[$k] ?? null`: the value stored under `k`, if any. */
  function Get<V>(a: Assoc<V>, k: string): (r: Option<V>)
    ensures r.Some? <==> HasKey(a, k)
  {
    if HasKey(a, k) then Some(a[KeyIndex(a, k)].1) else None
  }

  /** In an array with unique keys, a key's value is found wherever it sits. */
  lemma GetAt<V>(a: Assoc<V>, i: nat)
    requires UniqueKeys(a) && i < |a|
    ensures Get(a, a[i].0) == Some(a[i].1)
  {
  }

  /** `$a[$k] = $v`: overwrite in place when the key is present, append otherwise. */
  function Put<V>(a: Assoc<V>, k: string, v: V): (r: Assoc<V>)
    ensures HasKey(a, k) ==> |r| == |a| && Keys(r) == Keys(a)
    ensures !HasKey(a, k) ==> r == a + [(k, v)]
  {
    if HasKey(a, k) then a[KeyIndex(a, k) := (k, v)] else a + [(k, v)]
  }

  /** After `$a[$k] = $v`, `$a[$k]` is `v` and every other key reads as before. */
  lemma PutGet<V>(a: Assoc<V>, k: string, v: V)
    ensures Get(Put(a, k, v), k) == Some(v)
    ensures forall k' :: k' != k ==> Get(Put(a, k, v), k') == Get(a, k')
    ensures UniqueKeys(a) ==> UniqueKeys(Put(a, k, v))
  {
    var r := Put(a, k, v);
    assert HasKey(r, k) by {
      if HasKey(a, k) { assert r[KeyIndex(a, k)].0 == k; } else { assert r[|a|].0 == k; }
    }
    assert KeyIndex(r, k) == (if HasKey(a, k) then KeyIndex(a, k) else |a|);
    forall k' | k' != k ensures Get(r, k') == Get(a, k') {
      assert forall i :: 0 <= i < |a| ==> (r[i].0 == k' <==> a[i].0 == k');
      if HasKey(a, k') {
        assert r[KeyIndex(a, k')].0 == k';
        assert KeyIndex(r, k') == KeyIndex(a, k');
      }
    }
  }

  /** `array_merge($a, $b)` for string keys: the entries of `b` written into `a` one by one. */
  function Merge<V>(a: Assoc<V>, b: Assoc<V>): (r: Assoc<V>)
    decreases |b|
  {
    if b == [] then a else Merge(Put(a, b[0].0, b[0].1), b[1..])
  }

  /** Merging keeps keys unique. */
  lemma {:induction false} MergeUnique<V>(a: Assoc<V>, b: Assoc<V>)
    requires UniqueKeys(a)
    ensures UniqueKeys(Merge(a, b))
    decreases |b|
  {
    if b != [] {
      PutGet(a, b[0].0, b[0].1);
      MergeUnique(Put(a, b[0].0, b[0].1), b[1..]);
    }
  }

  /** One `array_diff($a, $b)` entry: a value of `a` absent from `b`, under its original index in `a`. */
  function ArrayDiff(a: seq<string>, b: seq<string>): (r: seq<(nat, string)>)
    ensures forall e :: e in r <==> e.0 < |a| && a[e.0] == e.1 && e.1 !in b
  {
    ArrayDiffFrom(a, b, 0)
  }

  function ArrayDiffFrom(a: seq<string>, b: seq<string>, from: nat): (r: seq<(nat, string)>)
    requires from <= |a|
    ensures forall e :: e in r <==> from <= e.0 < |a| && a[e.0] == e.1 && e.1 !in b
    ensures r == [] <==> forall i :: from <= i < |a| ==> a[i] in b
    decreases |a| - from
  {
    if from == |a| then []
    else if a[from] !in b then [(from, a[from])] + ArrayDiffFrom(a, b, from + 1)
    else ArrayDiffFrom(a, b, from + 1)
  }

  /**
   * `array_diff($a, $b) === array_diff($b, $a)` holds exactly when both are
   * empty, that is, when `a` and `b` hold the same set of values.
   */
  lemma ArrayDiffSymmetricIff(a: seq<string>, b: seq<string>)
    ensures ArrayDiff(a, b) == ArrayDiff(b, a) <==> (set x | x in a) == (set x | x in b)
  {
    var d1, d2 := ArrayDiffFrom(a, b, 0), ArrayDiffFrom(b, a, 0);
    var sa, sb := (set x | x in a), (set x | x in b);
    if sa == sb {
      forall i | 0 <= i < |a| ensures a[i] in b {
        assert a[i] in sa;
        assert a[i] in sb;
      }
      forall i | 0 <= i < |b| ensures b[i] in a {
        assert b[i] in sb;
        assert b[i] in sa;
      }
    }
    if d1 == d2 {
      forall i | 0 <= i < |a| ensures a[i] in b {
        var x := a[i];
        assert (i, x) in d1 <==> x !in b;
        assert (i, x) in d2 ==> x !in a;
      }
      forall i | 0 <= i < |b| ensures b[i] in a {
        var x := b[i];
        assert (i, x) in d2 <==> x !in a;
        assert (i, x) in d1 ==> x !in b;
      }
    }
  }
}
