/**
Sums a weight over the values of a finite map. Reference counts, mailbox
statistics and match counts are all sums of this kind.
*/
module Tally {

  function One(b: bool): nat {
    if b then 1 else 0
  }

  /** Some key of a non-empty map; which one does not matter (see `TotalRemove`). */
  ghost function Pick<K, V>(m: map<K, V>): (k: K)
    requires m != map[]
    ensures k in m
  {
    assert m.Keys != {};
    var k :| k in m;
    k
  }

  /** The sum of `w(v)` over all entries `k := v` of the map. */
  ghost function Total<K, V>(m: map<K, V>, w: V -> nat): nat
  {
    if m == map[] then 0
    else var k := Pick(m); w(m[k]) + Total(m - {k}, w)
  }

  /** The sum does not depend on the order in which keys are taken out. */
  lemma {:induction false} TotalRemove<K, V>(m: map<K, V>, w: V -> nat, k: K)
    requires k in m
    ensures Total(m, w) == w(m[k]) + Total(m - {k}, w)
    decreases |m|
  {
    var p := Pick(m);
    if p != k {
      TotalRemove(m - {p}, w, k);
      TotalRemove(m - {k}, w, p);
      assert m - {p} - {k} == m - {k} - {p};
    }
  }

  /** Adding a new entry adds its weight. */
  lemma TotalInsert<K, V>(m: map<K, V>, w: V -> nat, k: K, v: V)
    requires k !in m
    ensures Total(m[k := v], w) == w(v) + Total(m, w)
  {
    TotalRemove(m[k := v], w, k);
    assert m[k := v] - {k} == m;
  }

  /** Replacing an entry exchanges its weight. */
  lemma TotalUpdate<K, V>(m: map<K, V>, w: V -> nat, k: K, v: V)
    requires k in m
    ensures Total(m[k := v], w) + w(m[k]) == Total(m, w) + w(v)
  {
    TotalRemove(m[k := v], w, k);
    TotalRemove(m, w, k);
    assert m[k := v] - {k} == m - {k};
  }

  /** A map whose entries all weigh nothing sums to zero, and only such a map. */
  lemma {:induction false} TotalZero<K, V>(m: map<K, V>, w: V -> nat)
    ensures Total(m, w) == 0 <==> forall k :: k in m ==> w(m[k]) == 0
    decreases |m|
  {
    if m != map[] {
      var p := Pick(m);
      TotalZero(m - {p}, w);
      assert forall k :: k in m ==> k == p || k in m - {p};
      if forall k :: k in m ==> w(m[k]) == 0 {
        assert forall k :: k in m - {p} ==> w((m - {p})[k]) == 0;
      } else {
        var k :| k in m && w(m[k]) != 0;
        if k != p {
          assert k in m - {p} && w((m - {p})[k]) != 0;
        }
      }
    }
  }

  /** Entries that weigh the same give the same sum. */
  lemma {:induction false} TotalSame<K, V>(m: map<K, V>, w: V -> nat, m': map<K, V>, w': V -> nat)
    requires m.Keys == m'.Keys
    requires forall k :: k in m ==> w(m[k]) == w'(m'[k])
    ensures Total(m, w) == Total(m', w')
    decreases |m|
  {
    if m == map[] {
      assert m' == map[];
    } else {
      var p := Pick(m);
      TotalRemove(m', w', p);
      forall k | k in m - {p} ensures w((m - {p})[k]) == w'((m' - {p})[k]) {
        assert k in m;
      }
      TotalSame(m - {p}, w, m' - {p}, w');
    }
  }

  /** Sums over maps with the same keys add up when their entries do. */
  lemma {:induction false} TotalAdds<K, V>(m: map<K, V>, w: V -> nat, m1: map<K, V>, w1: V -> nat, m2: map<K, V>, w2: V -> nat)
    requires m.Keys == m1.Keys == m2.Keys
    requires forall k :: k in m ==> w(m[k]) == w1(m1[k]) + w2(m2[k])
    ensures Total(m, w) == Total(m1, w1) + Total(m2, w2)
    decreases |m|
  {
    if m == map[] {
      assert m1 == map[] && m2 == map[];
    } else {
      var p := Pick(m);
      TotalRemove(m1, w1, p);
      TotalRemove(m2, w2, p);
      forall k | k in m - {p} ensures w((m - {p})[k]) == w1((m1 - {p})[k]) + w2((m2 - {p})[k]) {
        assert k in m;
      }
      TotalAdds(m - {p}, w, m1 - {p}, w1, m2 - {p}, w2);
    }
  }

  /** Leaving out a set of entries leaves out their weights. */
  lemma {:induction false} TotalWithout<K, V>(m: map<K, V>, w: V -> nat, out: set<K>)
    ensures Total(m, w) == Total(m - out, w) + Total(m - (m.Keys - out), w)
    decreases |out|
  {
    if out == {} {
      assert m - out == m && m - (m.Keys - out) == map[];
    } else {
      var k :| k in out;
      TotalWithout(m, w, out - {k});
      if k in m {
        TotalRemove(m - (out - {k}), w, k);
        TotalRemove(m - (m.Keys - out), w, k);
        assert m - (out - {k}) - {k} == m - out;
        assert m - (m.Keys - out) - {k} == m - (m.Keys - (out - {k}));
      } else {
        assert m - (out - {k}) == m - out;
        assert m.Keys - (out - {k}) == m.Keys - out;
      }
    }
  }

  /** Counting by ones is counting the keys. */
  lemma {:induction false} TotalIsSize<K, V>(m: map<K, V>, w: V -> nat, keys: set<K>)
    requires forall k :: k in m ==> w(m[k]) == if k in keys then 1 else 0
    requires keys <= m.Keys
    ensures Total(m, w) == |keys|
    decreases |m|
  {
    if m == map[] {
      assert keys == {};
    } else {
      var k :| k in m;
      TotalRemove(m, w, k);
      TotalIsSize(m - {k}, w, keys - {k});
      assert k in keys ==> |keys| == |keys - {k}| + 1;
      assert k !in keys ==> keys - {k} == keys;
    }
  }
}
