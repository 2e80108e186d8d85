/**
 * Python dictionaries with integer keys (species ids), modelled as insertion-ordered
 * sequences of (key, value) entries, so that iteration order and sums are deterministic.
 */
module Dicts {
  import opened Options

  type Dict<V> = seq<(int, V)>

  /** The value of the first entry whose key is `k`, if any. */
  function Lookup<V>(d: Dict<V>, k: int): Option<V>
  {
    if |d| == 0 then None
    else if d[0].0 == k then Some(d[0].1)
    else Lookup(d[1..], k)
  }

  /** Python's `k in d`. */
  predicate HasKey<V>(d: Dict<V>, k: int)
  {
    Lookup(d, k).Some?
  }

  /** Python's `d[k] = v`: overwrite the value of `k`, or append a new entry at the end. */
  function Put<V>(d: Dict<V>, k: int, v: V): (r: Dict<V>)
    ensures Lookup(r, k) == Some(v)
    ensures forall k' :: k' != k ==> Lookup(r, k') == Lookup(d, k')
    ensures HasKey(d, k) ==> |r| == |d|
    ensures !HasKey(d, k) ==> r == d + [(k, v)]
  {
    if |d| == 0 then [(k, v)]
    else if d[0].0 == k then [(k, v)] + d[1..]
    else [d[0]] + Put(d[1..], k, v)
  }

  /** The lookup of a key in a count dictionary, reading an absent key as 0. */
  function Get0(d: Dict<int>, k: int): int
  {
    match Lookup(d, k)
    case Some(v) => v
    case None => 0
  }

  /** Python's `sum(d.values())`. */
  function Sum(d: Dict<int>): int
  {
    if |d| == 0 then 0 else d[0].1 + Sum(d[1..])
  }

  /** Putting `v` under `k` replaces the first value stored under `k` in the total. */
  lemma {:induction false} SumPut(d: Dict<int>, k: int, v: int)
    ensures Sum(Put(d, k, v)) == Sum(d) - Get0(d, k) + v
  {
    if |d| == 0 {
    } else if d[0].0 == k {
      assert Put(d, k, v)[1..] == d[1..];
    } else {
      SumPut(d[1..], k, v);
      assert Put(d, k, v)[1..] == Put(d[1..], k, v);
    }
  }

  /**
   * The accumulation step shared by every neighbour-count fold in the source:
   * `if k in d: d[k] += n else: d[k] = n`.
   */
  function AddTo(d: Dict<int>, k: int, n: int): (r: Dict<int>)
    ensures Get0(r, k) == Get0(d, k) + n
    ensures forall k' :: k' != k ==> Lookup(r, k') == Lookup(d, k')
    ensures HasKey(r, k)
    ensures forall k' :: HasKey(d, k') ==> HasKey(r, k')
    ensures Sum(r) == Sum(d) + n
  {
    SumPut(d, k, Get0(d, k) + n);
    Put(d, k, Get0(d, k) + n)
  }

  /** No key occurs twice, as in any Python dict or Java map. */
  predicate Keyed<V>(d: Dict<V>)
  {
    forall i, j :: 0 <= i < j < |d| ==> d[i].0 != d[j].0
  }

  lemma {:induction false} NoKeyNoEntry<V>(d: Dict<V>, k: int)
    requires !HasKey(d, k)
    ensures forall i :: 0 <= i < |d| ==> d[i].0 != k
  {
    if |d| > 0 {
      NoKeyNoEntry(d[1..], k);
      assert forall i :: 1 <= i < |d| ==> d[i] == d[1..][i - 1];
    }
  }

  lemma {:induction false} PutKeys<V>(d: Dict<V>, k: int, v: V)
    ensures HasKey(d, k) ==> forall i :: 0 <= i < |d| ==> Put(d, k, v)[i].0 == d[i].0
  {
    if |d| > 0 && d[0].0 != k {
      PutKeys(d[1..], k, v);
      assert forall i :: 1 <= i < |d| ==> Put(d, k, v)[i] == Put(d[1..], k, v)[i - 1];
      assert forall i :: 1 <= i < |d| ==> d[i] == d[1..][i - 1];
    }
  }

  /** Writing a key keeps every key unique. */
  lemma PutKeyed<V>(d: Dict<V>, k: int, v: V)
    requires Keyed(d)
    ensures Keyed(Put(d, k, v))
  {
    var r := Put(d, k, v);
    if HasKey(d, k) {
      PutKeys(d, k, v);
      forall i, j | 0 <= i < j < |r| ensures r[i].0 != r[j].0 {
        assert r[i].0 == d[i].0 && r[j].0 == d[j].0;
      }
    } else {
      NoKeyNoEntry(d, k);
      forall i, j | 0 <= i < j < |r| ensures r[i].0 != r[j].0 {
        assert r[i] == d[i];
        if j < |d| {
          assert r[j] == d[j];
        }
      }
    }
  }

  lemma {:induction false} NoEntryNoKey<V>(d: Dict<V>, k: int)
    requires forall i :: 0 <= i < |d| ==> d[i].0 != k
    ensures !HasKey(d, k)
  {
    if |d| > 0 {
      assert forall i :: 0 <= i < |d| - 1 ==> d[1..][i] == d[i + 1];
      NoEntryNoKey(d[1..], k);
    }
  }

  /** Dropping the last entry of a map without repeated keys only forgets that entry. */
  lemma {:induction false} LookupPrefix<V>(d: Dict<V>, k: int)
    requires Keyed(d) && |d| > 0
    ensures Lookup(d, k) == if d[|d| - 1].0 == k then Some(d[|d| - 1].1) else Lookup(d[..|d| - 1], k)
  {
    if |d| > 1 {
      if d[0].0 != k {
        assert d[1..][..|d| - 2] == d[..|d| - 1][1..];
        assert Keyed(d[1..]) by {
          assert forall i :: 0 <= i < |d| - 1 ==> d[1..][i] == d[i + 1];
        }
        LookupPrefix(d[1..], k);
      }
    }
  }
}
