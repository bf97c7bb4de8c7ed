/** A Python dict with string keys, as an association list in insertion
    order: assigning to an existing key keeps its position, a new key goes
    last, and iteration follows that order. */
module PyDict {

  import opened PyBuiltins

  type Entries<V> = seq<(string, V)>

  function Keys<V>(d: Entries<V>): set<string> {
    if d == [] then {} else {d[0].0} + Keys(d[1..])
  }

  predicate DistinctKeys<V>(d: Entries<V>) {
    forall i, j :: 0 <= i < j < |d| ==> d[i].0 != d[j].0
  }

  /** `d[k]`, None where Python raises KeyError. */
  function Lookup<V>(d: Entries<V>, k: string): (r: Option<V>)
    ensures r.Some? <==> k in Keys(d)
    ensures r.Some? ==> exists i :: 0 <= i < |d| && d[i] == (k, r.value)
  {
    if d == [] then None
    else if d[0].0 == k then Some(d[0].1)
    else
      var r := Lookup(d[1..], k);
      assert r.Some? ==> exists i :: 0 <= i < |d[1..]| && d[1..][i] == (k, r.value);
      r
  }

  /** With distinct keys, every entry is what a lookup of its key finds. */
  lemma {:induction false} LookupEntry<V>(d: Entries<V>, i: nat)
    requires DistinctKeys(d) && i < |d|
    ensures Lookup(d, d[i].0) == Some(d[i].1)
  {
    if i > 0 {
      LookupEntry(d[1..], i - 1);
    }
  }

  /** `d[k] = v`: a new key goes last. */
  function Store<V>(d: Entries<V>, k: string, v: V): (r: Entries<V>)
    ensures k !in Keys(d) ==> r == d + [(k, v)]
  {
    if d == [] then [(k, v)]
    else if d[0].0 == k then [(k, v)] + d[1..]
    else [d[0]] + Store(d[1..], k, v)
  }

  /** After `d[k] = v`, k reads v and every other key reads as before. */
  lemma {:induction false} StoreLookup<V>(d: Entries<V>, k: string, v: V)
    ensures Lookup(Store(d, k, v), k) == Some(v)
    ensures forall k' :: k' != k ==> Lookup(Store(d, k, v), k') == Lookup(d, k')
  {
    if d != [] && d[0].0 != k {
      StoreLookup(d[1..], k, v);
      assert Store(d, k, v)[1..] == Store(d[1..], k, v);
    } else if d != [] {
      assert Store(d, k, v)[1..] == d[1..];
    }
  }

  /** `d[k] = v` adds k to the keys; an existing key keeps its position. */
  lemma {:induction false} StoreKeys<V>(d: Entries<V>, k: string, v: V)
    ensures Keys(Store(d, k, v)) == Keys(d) + {k}
    ensures k in Keys(d) ==> |Store(d, k, v)| == |d| && forall i :: 0 <= i < |d| ==> Store(d, k, v)[i].0 == d[i].0
  {
    var r := Store(d, k, v);
    if d != [] && d[0].0 != k {
      StoreKeys(d[1..], k, v);
      assert r[1..] == Store(d[1..], k, v);
    } else if d != [] {
      assert r[1..] == d[1..];
    }
  }

  /** `d[k] = v` keeps the keys distinct. */
  lemma {:induction false} StoreDistinct<V>(d: Entries<V>, k: string, v: V)
    requires DistinctKeys(d)
    ensures DistinctKeys(Store(d, k, v))
  {
    StoreKeys(d, k, v);
    if d != [] && d[0].0 != k {
      StoreDistinct(d[1..], k, v);
      StoreKeys(d[1..], k, v);
      var r := Store(d, k, v);
      assert r[1..] == Store(d[1..], k, v);
      forall i | 1 <= i < |r|
        ensures r[i].0 != d[0].0
      {
        assert r[i] == r[1..][i - 1];
        assert r[i].0 in Keys(r[1..]) by { KeyAt(r[1..], i - 1); }
        if r[i].0 != k {
          assert r[i].0 in Keys(d[1..]);
          KeyIndex(d[1..], r[i].0);
        }
      }
    } else if d != [] {
      var r := Store(d, k, v);
      assert forall i :: 1 <= i < |r| ==> r[i] == d[i];
    }
  }

  /** The key at a position is a key. */
  lemma {:induction false} KeyAt<V>(d: Entries<V>, i: nat)
    requires i < |d|
    ensures d[i].0 in Keys(d)
  {
    if i > 0 {
      KeyAt(d[1..], i - 1);
    }
  }

  /** A key sits at some position. */
  lemma {:induction false} KeyIndex<V>(d: Entries<V>, k: string)
    requires k in Keys(d)
    ensures exists i :: 0 <= i < |d| && d[i].0 == k
  {
    if d[0].0 != k {
      KeyIndex(d[1..], k);
      var i :| 0 <= i < |d[1..]| && d[1..][i].0 == k;
      assert d[i + 1].0 == k;
    }
  }
}
