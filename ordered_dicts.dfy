/** Python's insertion-ordered `dict`, as a sequence of key/value pairs. Assigning to a key
    that is already present replaces its value where it stands; a new key goes at the end.
    Iterating the dict (`d.items()`) walks the sequence front to back. */
module OrderedDicts {

  import opened Options

  type Dict<K, V> = seq<(K, V)>

  function KeysOf<K, V>(d: Dict<K, V>): (keys: seq<K>)
    ensures |keys| == |d|
  {
    seq(|d|, i requires 0 <= i < |d| => d[i].0)
  }

  predicate NoDuplicates<K(==)>(s: seq<K>) {
    forall i, j :: 0 <= i < j < |s| ==> s[i] != s[j]
  }

  /** What every real dict satisfies: each key appears once. */
  predicate UniqueKeys<K(==), V>(d: Dict<K, V>) {
    NoDuplicates(KeysOf(d))
  }

  /** The value of the LAST pair with key `k`, read from the back of the sequence. On a dict
      with unique keys this is `d.get(k)`; on a list of pairs it is the value a dict built
      from them keeps for `k`. */
  function Get<K(==), V>(d: Dict<K, V>, k: K): (r: Option<V>)
    ensures r.None? <==> k !in KeysOf(d)
  {
    if d == [] then None
    else if d[|d| - 1].0 == k then
      assert KeysOf(d)[|d| - 1] == k;
      Some(d[|d| - 1].1)
    else
      assert KeysOf(d) == KeysOf(d[..|d| - 1]) + [d[|d| - 1].0];
      Get(d[..|d| - 1], k)
  }

  /** `d[k] = v`. */
  function Put<K(==), V>(d: Dict<K, V>, k: K, v: V): (r: Dict<K, V>)
    ensures Get(r, k) == Some(v)
  {
    if d == [] then [(k, v)]
    else if d[|d| - 1].0 == k then d[..|d| - 1] + [(k, v)]
    else if k in KeysOf(d[..|d| - 1]) then
      var e := Put(d[..|d| - 1], k, v) + [d[|d| - 1]];
      assert e[..|e| - 1] == Put(d[..|d| - 1], k, v);
      e
    else d + [(k, v)]
  }

  /** `dict(pairs)`: assign the pairs one after another. */
  function FromPairs<K(==), V>(pairs: seq<(K, V)>): (d: Dict<K, V>)
    ensures UniqueKeys(d)
  {
    if pairs == [] then []
    else
      var last := pairs[|pairs| - 1];
      PutUnique(FromPairs(pairs[..|pairs| - 1]), last.0, last.1);
      Put(FromPairs(pairs[..|pairs| - 1]), last.0, last.1)
  }

  /** Every element of `r` occurs in `s` before any occurrence of a later element of `r`. */
  predicate InOrderOf<K(==)>(r: seq<K>, s: seq<K>) {
    forall i, j, k :: 0 <= i < j < |r| && 0 <= k < |s| && s[k] == r[j] ==> r[i] in s[..k]
  }

  /** One more element of `s` keeps the order of elements already drawn from `s`, and an
      element new to `s` may join them at the end. */
  lemma InOrderSnoc<K>(r: seq<K>, s: seq<K>, x: K)
    requires InOrderOf(r, s) && forall y :: y in r ==> y in s
    ensures InOrderOf(r, s + [x])
    ensures x !in s ==> InOrderOf(r + [x], s + [x])
  {
    var t := s + [x];
    forall i, j, k | 0 <= i < j < |r| && 0 <= k < |t| && t[k] == r[j]
      ensures r[i] in t[..k]
    {
      if k < |s| {
        assert t[..k] == s[..k];
      } else {
        assert t[..k] == s;
      }
    }
    if x !in s {
      var r' := r + [x];
      forall i, j, k | 0 <= i < j < |r'| && 0 <= k < |t| && t[k] == r'[j]
        ensures r'[i] in t[..k]
      {
        if j < |r| {
          assert r[i] in t[..k];
        } else {
          assert k == |s|;
          assert t[..k] == s && r'[i] == r[i];
        }
      }
    }
  }

  /** `s` without repetitions, each element kept where it first occurs. */
  function Distinct<K(==)>(s: seq<K>): (r: seq<K>)
    ensures NoDuplicates(r)
    ensures forall i :: 0 <= i < |r| ==> r[i] in s
    ensures forall i :: 0 <= i < |s| ==> s[i] in r
    ensures InOrderOf(r, s)
  {
    if s == [] then []
    else
      var init, x := s[..|s| - 1], s[|s| - 1];
      var r := Distinct(init);
      assert s == init + [x];
      assert forall i :: 0 <= i < |s| - 1 ==> s[i] == init[i];
      InOrderSnoc(r, init, x);
      if x in r then r else r + [x]
  }

  lemma KeysOfSnoc<K, V>(d: Dict<K, V>, p: (K, V))
    ensures KeysOf(d + [p]) == KeysOf(d) + [p.0]
  {
  }

  /** On a real dict, looking up the key at position `p` finds the value stored there. */
  lemma {:induction false} GetAt<K, V>(d: Dict<K, V>, p: nat)
    requires UniqueKeys(d) && p < |d|
    ensures Get(d, d[p].0) == Some(d[p].1)
  {
    if p < |d| - 1 {
      var init := d[..|d| - 1];
      assert KeysOf(d)[p] == d[p].0 && KeysOf(d)[|d| - 1] == d[|d| - 1].0;
      assert UniqueKeys(init) by {
        forall i, j | 0 <= i < j < |init| ensures KeysOf(init)[i] != KeysOf(init)[j] {
          assert KeysOf(init)[i] == KeysOf(d)[i] && KeysOf(init)[j] == KeysOf(d)[j];
        }
      }
      GetAt(init, p);
      assert init[p] == d[p];
    }
  }

  /** Assigning keeps the key order of the dict and appends a new key. */
  lemma {:induction false} PutKeys<K, V>(d: Dict<K, V>, k: K, v: V)
    ensures KeysOf(Put(d, k, v)) == if k in KeysOf(d) then KeysOf(d) else KeysOf(d) + [k]
  {
    if d != [] {
      var init, last := d[..|d| - 1], d[|d| - 1];
      assert d == init + [last];
      KeysOfSnoc(init, last);
      if last.0 == k {
        KeysOfSnoc(init, (k, v));
      } else if k in KeysOf(init) {
        PutKeys(init, k, v);
        KeysOfSnoc(Put(init, k, v), last);
      } else {
        KeysOfSnoc(d, (k, v));
        assert k !in KeysOf(d);
      }
    }
  }

  /** After `d[k] = v`, `k` reads `v` and every other key reads what it read before. */
  lemma {:induction false} PutGet<K, V>(d: Dict<K, V>, k: K, v: V, k': K)
    ensures Get(Put(d, k, v), k') == if k' == k then Some(v) else Get(d, k')
  {
    if d != [] {
      var init, last := d[..|d| - 1], d[|d| - 1];
      if last.0 == k {
        var e := init + [(k, v)];
        assert e[..|e| - 1] == init;
        if k' != k {
          assert Get(e, k') == Get(init, k');
        }
      } else if k in KeysOf(init) {
        var e := Put(init, k, v) + [last];
        assert e[..|e| - 1] == Put(init, k, v);
        PutGet(init, k, v, k');
      } else {
        var e := d + [(k, v)];
        assert e[..|e| - 1] == d;
      }
    }
  }

  lemma PutUnique<K, V>(d: Dict<K, V>, k: K, v: V)
    requires UniqueKeys(d)
    ensures UniqueKeys(Put(d, k, v))
  {
    PutKeys(d, k, v);
  }

  /** The dict built from `pairs` keeps each key once, in first-occurrence order. */
  lemma {:induction false} FromPairsKeys<K, V>(pairs: seq<(K, V)>)
    ensures KeysOf(FromPairs(pairs)) == Distinct(KeysOf(pairs))
    ensures UniqueKeys(FromPairs(pairs))
  {
    if pairs != [] {
      var init, last := pairs[..|pairs| - 1], pairs[|pairs| - 1];
      FromPairsKeys(init);
      var keys := KeysOf(FromPairs(init));
      PutKeys(FromPairs(init), last.0, last.1);
      assert KeysOf(FromPairs(pairs)) == if last.0 in keys then keys else keys + [last.0];
      var s := KeysOf(pairs);
      assert s[..|s| - 1] == KeysOf(init) && s[|s| - 1] == last.0;
      assert Distinct(s) == if last.0 in keys then keys else keys + [last.0];
    }
  }

  /** The dict built from `pairs` maps each key to the last value given for it. */
  lemma {:induction false} FromPairsGet<K, V>(pairs: seq<(K, V)>, k: K)
    ensures Get(FromPairs(pairs), k) == Get(pairs, k)
  {
    if pairs != [] {
      var init, last := pairs[..|pairs| - 1], pairs[|pairs| - 1];
      FromPairsGet(init, k);
      PutGet(FromPairs(init), last.0, last.1, k);
    }
  }
}
