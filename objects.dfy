/** JavaScript objects keyed by facet id, as the faceted-search engine uses them.

    A JavaScript object iterates its own keys in insertion order, an assignment to a
    new key appends it and `delete` removes it.  The engine depends on that order
    (the first untyped facet becomes the default count key, lists are built by
    `_.forOwn`), so an object is modelled as a sequence of key/value entries rather
    than as a Dafny `map`.
 */
module Objects {

  datatype Option<T> = None | Some(value: T)

  /** Facet ids are the facets' property IRIs, never the empty string. */
  type FacetId = s: string | |s| > 0 witness "<>"

  /** One own property of an object: `{ id: k, val: o }` in the source's words. */
  datatype Keyed<V> = Keyed(id: FacetId, val: V)

  type Dict<V> = seq<Keyed<V>>

  /** `_.keys(d)`, in iteration order. */
  function Keys<V>(d: Dict<V>): (r: seq<FacetId>)
    ensures |r| == |d|
  {
    if d == [] then [] else [d[0].id] + Keys(d[1..])
  }

  lemma KeysIndex<V>(d: Dict<V>, i: nat)
    requires i < |d|
    ensures Keys(d)[i] == d[i].id
  {
    if i > 0 { KeysIndex(d[1..], i - 1); }
  }

  lemma KeysConcat<V>(a: Dict<V>, b: Dict<V>)
    ensures Keys(a + b) == Keys(a) + Keys(b)
  {
    if a != [] {
      assert (a + b)[1..] == a[1..] + b;
      KeysConcat(a[1..], b);
    } else {
      assert a + b == b;
    }
  }

  lemma InKeys<V>(d: Dict<V>, k: FacetId)
    ensures k in Keys(d) <==> exists i :: 0 <= i < |d| && d[i].id == k
  {
    if d != [] {
      InKeys(d[1..], k);
      if k in Keys(d[1..]) {
        var i :| 0 <= i < |d[1..]| && d[1..][i].id == k;
        assert d[i + 1].id == k;
      }
      forall i | 0 < i < |d| && d[i].id == k ensures k in Keys(d[1..]) {
        assert d[1..][i - 1].id == k;
      }
    }
  }

  /** No key occurs twice, as in every JavaScript object. */
  predicate UniqueKeys<V>(d: Dict<V>) {
    forall i, j :: 0 <= i < j < |d| ==> d[i].id != d[j].id
  }

  /** `d[k]`: the value of the first entry with key `k`, `None` when the key is absent. */
  function Get<V>(d: Dict<V>, k: FacetId): (r: Option<V>)
    ensures r.Some? <==> k in Keys(d)
    ensures r.Some? ==> Keyed(k, r.value) in d
  {
    if d == [] then None else if d[0].id == k then Some(d[0].val) else Get(d[1..], k)
  }

  lemma GetAt<V>(d: Dict<V>, i: nat)
    requires i < |d| && UniqueKeys(d)
    ensures Get(d, d[i].id) == Some(d[i].val)
  {
    if i > 0 {
      assert d[0].id != d[i].id;
      GetAt(d[1..], i - 1);
    }
  }

  /** `d[k] = v`: overwrites the entry with key `k` in place, or appends a new one. */
  function Put<V>(d: Dict<V>, k: FacetId, v: V): (r: Dict<V>)
    ensures Get(r, k) == Some(v)
    ensures forall j :: j != k ==> Get(r, j) == Get(d, j)
    ensures Keys(r) == if k in Keys(d) then Keys(d) else Keys(d) + [k]
    ensures forall e :: e in r ==> e in d || e == Keyed(k, v)
  {
    if d == [] then [Keyed(k, v)]
    else if d[0].id == k then
      var r := [Keyed(k, v)] + d[1..];
      assert r[0] == Keyed(k, v) && r[1..] == d[1..];
      r
    else
      var rest := Put(d[1..], k, v);
      var r := [d[0]] + rest;
      assert r[0] == d[0] && r[1..] == rest;
      assert Keys(d) == [d[0].id] + Keys(d[1..]);
      r
  }

  /** `delete d[k]`. */
  function Remove<V>(d: Dict<V>, k: FacetId): (r: Dict<V>)
    ensures Get(r, k) == None
    ensures forall j :: j != k ==> Get(r, j) == Get(d, j)
    ensures forall j :: j in Keys(r) <==> j in Keys(d) && j != k
    ensures |r| <= |d|
    ensures forall e :: e in r ==> e in d && e.id != k
  {
    if d == [] then []
    else if d[0].id == k then Remove(d[1..], k)
    else [d[0]] + Remove(d[1..], k)
  }

  lemma UniqueKeysTail<V>(d: Dict<V>)
    requires d != [] && UniqueKeys(d)
    ensures UniqueKeys(d[1..]) && d[0].id !in Keys(d[1..])
  {
    InKeys(d[1..], d[0].id);
  }

  lemma UniqueKeysCons<V>(e: Keyed<V>, d: Dict<V>)
    requires UniqueKeys(d) && e.id !in Keys(d)
    ensures UniqueKeys([e] + d)
  {
    InKeys(d, e.id);
    forall i, j | 0 <= i < j < |[e] + d| ensures ([e] + d)[i].id != ([e] + d)[j].id {
      if i > 0 {
        assert ([e] + d)[i] == d[i - 1] && ([e] + d)[j] == d[j - 1];
      } else {
        assert ([e] + d)[j] == d[j - 1];
      }
    }
  }

  lemma PutUnique<V>(d: Dict<V>, k: FacetId, v: V)
    requires UniqueKeys(d)
    ensures UniqueKeys(Put(d, k, v))
  {
    if d != [] {
      UniqueKeysTail(d);
      if d[0].id == k {
        UniqueKeysCons(Keyed(k, v), d[1..]);
      } else {
        PutUnique(d[1..], k, v);
        UniqueKeysCons(d[0], Put(d[1..], k, v));
      }
    }
  }

  lemma RemoveUnique<V>(d: Dict<V>, k: FacetId)
    requires UniqueKeys(d)
    ensures UniqueKeys(Remove(d, k))
  {
    if d != [] {
      UniqueKeysTail(d);
      RemoveUnique(d[1..], k);
      if d[0].id != k {
        UniqueKeysCons(d[0], Remove(d[1..], k));
      }
    }
  }

  /** Sum of a sequence of integers (`_.sum`). */
  function Sum(s: seq<int>): int {
    if s == [] then 0 else s[0] + Sum(s[1..])
  }

  lemma SumConcat(a: seq<int>, b: seq<int>)
    ensures Sum(a + b) == Sum(a) + Sum(b)
  {
    if a != [] {
      assert (a + b)[1..] == a[1..] + b;
      SumConcat(a[1..], b);
    } else {
      assert a + b == b;
    }
  }
}
