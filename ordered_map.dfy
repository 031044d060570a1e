/** Python's insertion-ordered dictionaries (`OrderedDict`, `dict`) as sequences of entries. */
module OrderedMap {
  import opened Wrappers

  function Keys<K, V>(m: seq<(K, V)>): (r: seq<K>)
    ensures |r| == |m|
    ensures forall i :: 0 <= i < |m| ==> r[i] == m[i].0
  {
    if m == [] then [] else [m[0].0] + Keys(m[1..])
  }

  predicate DistinctKeys<K(==), V>(m: seq<(K, V)>) {
    forall i, j :: 0 <= i < j < |m| ==> m[i].0 != m[j].0
  }

  /** `m.get(k)`. */
  function Get<K(==), V>(m: seq<(K, V)>, k: K): (r: Option<V>)
    ensures r.Some? <==> k in Keys(m)
  {
    if m == [] then None else if m[0].0 == k then Some(m[0].1) else Get(m[1..], k)
  }

  lemma KeysCons<K, V>(e: (K, V), m: seq<(K, V)>)
    ensures Keys([e] + m) == [e.0] + Keys(m)
  {
    assert ([e] + m)[1..] == m;
  }

  lemma GetCons<K(!new), V>(e: (K, V), m: seq<(K, V)>, k: K)
    ensures Get([e] + m, k) == if e.0 == k then Some(e.1) else Get(m, k)
  {
    assert ([e] + m)[1..] == m;
  }

  lemma DistinctCons<K(!new), V>(e: (K, V), m: seq<(K, V)>)
    requires DistinctKeys(m) && e.0 !in Keys(m)
    ensures DistinctKeys([e] + m)
  {
    var r := [e] + m;
    forall i, j | 0 <= i < j < |r| ensures r[i].0 != r[j].0 {
      if i == 0 {
        assert r[j].0 == Keys(m)[j - 1];
      } else {
        assert r[i] == m[i - 1] && r[j] == m[j - 1];
      }
    }
  }

  /** What `m[k] = v` promises of its result `r`. */
  ghost predicate PutSpec<K(!new), V>(m: seq<(K, V)>, k: K, v: V, r: seq<(K, V)>) {
    && Keys(r) == (if k in Keys(m) then Keys(m) else Keys(m) + [k])
    && Get(r, k) == Some(v)
    && (forall k' :: k' != k ==> Get(r, k') == Get(m, k'))
    && (DistinctKeys(m) ==> DistinctKeys(r))
  }

  lemma PutHeadCase<K(!new), V>(e: (K, V), m: seq<(K, V)>, v: V)
    ensures PutSpec([e] + m, e.0, v, [(e.0, v)] + m)
  {
    var k := e.0;
    var r := [(k, v)] + m;
    KeysCons(e, m);
    KeysCons((k, v), m);
    GetCons((k, v), m, k);
    forall k' | k' != k ensures Get(r, k') == Get([e] + m, k') {
      GetCons((k, v), m, k');
      GetCons(e, m, k');
    }
    if DistinctKeys([e] + m) {
      forall i, j | 0 <= i < j < |r| ensures r[i].0 != r[j].0 {
        assert r[j] == ([e] + m)[j];
        if i > 0 { assert r[i] == ([e] + m)[i]; }
      }
    }
  }

  lemma PutTailKeys<K(!new), V>(e: (K, V), m: seq<(K, V)>, k: K, t: seq<(K, V)>)
    requires e.0 != k
    requires Keys(t) == (if k in Keys(m) then Keys(m) else Keys(m) + [k])
    ensures Keys([e] + t) == (if k in Keys([e] + m) then Keys([e] + m) else Keys([e] + m) + [k])
  {
    KeysCons(e, m);
    KeysCons(e, t);
    if k in Keys(m) {
      assert k in Keys([e] + m);
    } else {
      assert k !in Keys([e] + m);
      assert [e.0] + (Keys(m) + [k]) == ([e.0] + Keys(m)) + [k];
    }
  }

  lemma PutTailGet<K(!new), V>(e: (K, V), m: seq<(K, V)>, k: K, v: V, t: seq<(K, V)>)
    requires e.0 != k
    requires Get(t, k) == Some(v)
    requires forall k' :: k' != k ==> Get(t, k') == Get(m, k')
    ensures Get([e] + t, k) == Some(v)
    ensures forall k' :: k' != k ==> Get([e] + t, k') == Get([e] + m, k')
  {
    GetCons(e, t, k);
    forall k' | k' != k ensures Get([e] + t, k') == Get([e] + m, k') {
      GetCons(e, t, k');
      GetCons(e, m, k');
    }
  }

  lemma PutTailDistinct<K(!new), V>(e: (K, V), m: seq<(K, V)>, k: K, t: seq<(K, V)>)
    requires e.0 != k
    requires Keys(t) == (if k in Keys(m) then Keys(m) else Keys(m) + [k])
    requires DistinctKeys(m) ==> DistinctKeys(t)
    requires DistinctKeys([e] + m)
    ensures DistinctKeys([e] + t)
  {
    assert DistinctKeys(m) by {
      forall i, j | 0 <= i < j < |m| ensures m[i].0 != m[j].0 {
        assert ([e] + m)[i + 1] == m[i] && ([e] + m)[j + 1] == m[j];
      }
    }
    assert e.0 !in Keys(m) by {
      forall j | 0 <= j < |m| ensures Keys(m)[j] != e.0 {
        assert ([e] + m)[j + 1] == m[j];
      }
    }
    assert e.0 !in Keys(t);
    DistinctCons(e, t);
  }

  lemma PutTailCase<K(!new), V>(e: (K, V), m: seq<(K, V)>, k: K, v: V, t: seq<(K, V)>)
    requires e.0 != k
    requires PutSpec(m, k, v, t)
    ensures PutSpec([e] + m, k, v, [e] + t)
  {
    PutTailKeys(e, m, k, t);
    PutTailGet(e, m, k, v, t);
    if DistinctKeys([e] + m) {
      PutTailDistinct(e, m, k, t);
    }
  }

  /** `m[k] = v`: an existing key keeps its position, a new key goes last. */
  function Put<K(==, !new), V>(m: seq<(K, V)>, k: K, v: V): (r: seq<(K, V)>)
    ensures Keys(r) == if k in Keys(m) then Keys(m) else Keys(m) + [k]
    ensures Get(r, k) == Some(v)
    ensures forall k' :: k' != k ==> Get(r, k') == Get(m, k')
    ensures DistinctKeys(m) ==> DistinctKeys(r)
  {
    if m == [] then [(k, v)]
    else
      assert m == [m[0]] + m[1..];
      if m[0].0 == k then
        PutHeadCase(m[0], m[1..], v);
        [(k, v)] + m[1..]
      else
        var t := Put(m[1..], k, v);
        PutTailCase(m[0], m[1..], k, v, t);
        [m[0]] + t
  }

  /** Putting a new key appends its entry. */
  lemma {:induction false} PutNewKey<K(!new), V>(m: seq<(K, V)>, k: K, v: V)
    requires k !in Keys(m)
    ensures Put(m, k, v) == m + [(k, v)]
  {
    if m != [] {
      KeysCons(m[0], m[1..]);
      assert m == [m[0]] + m[1..];
      PutNewKey(m[1..], k, v);
      assert [m[0]] + (m[1..] + [(k, v)]) == m + [(k, v)];
    }
  }

  /** Overwriting the value of the last entry. */
  lemma {:induction false} PutExistingKeyLast<K(!new), V>(m: seq<(K, V)>, k: K, v: V, w: V)
    requires k !in Keys(m)
    ensures Put(m + [(k, v)], k, w) == m + [(k, w)]
  {
    if m == [] {
      assert m + [(k, v)] == [(k, v)];
    } else {
      KeysCons(m[0], m[1..]);
      assert m == [m[0]] + m[1..];
      var mk := m + [(k, v)];
      assert mk[0] == m[0] && mk[1..] == m[1..] + [(k, v)];
      PutExistingKeyLast(m[1..], k, v, w);
      assert [m[0]] + (m[1..] + [(k, w)]) == m + [(k, w)];
    }
  }
}
