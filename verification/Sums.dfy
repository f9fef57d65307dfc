/** Exact sums over finite maps, independent of the order in which entries are visited.

    Dictionaries are summed in whatever order they hold their entries; with exact arithmetic the order
    is immaterial, which is what these lemmas establish. */
module Sums {
  import opened Arithmetic

  ghost function Total<K(!new)>(m: map<K, real>): real {
    if m == map[] then 0.0
    else
      assert m.Keys != {} by {
        assert forall k :: k !in m.Keys ==> k !in m;
      }
      var k :| k in m;
      m[k] + Total(m - {k})
  }

  /** Any one entry may be taken out first. */
  lemma {:induction false} TotalRemove<K(!new)>(m: map<K, real>, k: K)
    requires k in m
    ensures Total(m) == m[k] + Total(m - {k})
    decreases |m|
  {
    var c :| c in m && Total(m) == m[c] + Total(m - {c});
    if c != k {
      assert k in m - {c};
      TotalRemove(m - {c}, k);
      TotalRemove(m - {k}, c);
      assert m - {c} - {k} == m - {k} - {c};
    }
  }

  lemma AnyKey<K, V>(m: map<K, V>) returns (k: K)
    requires m != map[]
    ensures k in m
  {
    k :| k in m;
  }

  lemma SmallerMap<K>(m: map<K, real>, k: K)
    requires k in m
    ensures |m - {k}| == |m| - 1
  {
    assert (m - {k}).Keys == m.Keys - {k};
  }

  /** The sum splits over any set of keys. */
  lemma {:induction false} TotalSplit<K(!new)>(m: map<K, real>, keys: set<K>)
    requires keys <= m.Keys
    ensures Total(m) == Total(map k | k in keys :: m[k]) + Total(m - keys)
    decreases |keys|
  {
    var part := map k | k in keys :: m[k];
    if keys == {} {
      assert part == map[] && m - keys == m;
    } else {
      var k :| k in keys;
      TotalRemove(m, k);
      TotalSplit(m - {k}, keys - {k});
      TotalRemove(part, k);
      assert part - {k} == map x | x in keys - {k} :: (m - {k})[x];
      assert m - keys == m - {k} - (keys - {k});
    }
  }

  lemma {:induction false} TotalScaled<K(!new)>(m: map<K, real>, c: real)
    ensures Total(map k | k in m :: Times(c, m[k])) == Times(c, Total(m))
    decreases |m|
  {
    var scaled := map k | k in m :: Times(c, m[k]);
    if m == map[] {
      assert scaled == map[];
      TimesUnits(c);
    } else {
      var k := AnyKey(m);
      SmallerMap(m, k);
      TotalRemove(m, k);
      TotalRemove(scaled, k);
      TotalScaled(m - {k}, c);
      assert scaled - {k} == map x | x in m - {k} :: Times(c, (m - {k})[x]);
      TimesOverSum(c, m[k], Total(m - {k}));
    }
  }

  /** Entrywise order carries over, and equal sums then mean equal entries. */
  lemma {:induction false} TotalOrder<K(!new)>(a: map<K, real>, b: map<K, real>)
    requires a.Keys == b.Keys && forall k :: k in a ==> a[k] <= b[k]
    ensures Total(a) <= Total(b)
    ensures Total(a) == Total(b) ==> a == b
    decreases |a|
  {
    if a == map[] {
      assert b == map[] by {
        assert b.Keys == {};
      }
    } else {
      var k := AnyKey(a);
      SmallerMap(a, k);
      TotalRemove(a, k);
      TotalRemove(b, k);
      TotalOrder(a - {k}, b - {k});
      if Total(a) == Total(b) {
        assert a - {k} == b - {k};
        forall x | x in a
          ensures a[x] == b[x]
        {
          if x != k {
            assert a[x] == (a - {k})[x];
          }
        }
      }
    }
  }

  /** The same entry everywhere. */
  ghost function Uniform<K>(keys: set<K>, c: real): map<K, real> {
    map k | k in keys :: c
  }

  lemma {:induction false} TotalUniform<K(!new)>(keys: set<K>, c: real)
    ensures Total(Uniform(keys, c)) == Times(c, |keys| as real)
    decreases |keys|
  {
    if keys == {} {
      assert Uniform(keys, c) == map[];
      TimesUnits(c);
    } else {
      var k :| k in keys;
      TotalRemove(Uniform(keys, c), k);
      assert Uniform(keys, c) - {k} == Uniform(keys - {k}, c);
      TotalUniform(keys - {k}, c);
      TimesOverSum(c, |keys - {k}| as real, 1.0);
      TimesUnits(c);
      assert |keys| as real == |keys - {k}| as real + 1.0;
    }
  }

  lemma {:induction false} TotalZero<K(!new)>(m: map<K, real>)
    requires forall k :: k in m ==> m[k] >= 0.0
    ensures Total(m) >= 0.0
    ensures Total(m) == 0.0 <==> forall k :: k in m ==> m[k] == 0.0
    decreases |m|
  {
    if m != map[] {
      var k := AnyKey(m);
      SmallerMap(m, k);
      TotalRemove(m, k);
      TotalZero(m - {k});
      assert forall x :: x in m ==> x == k || (x in m - {k} && m[x] == (m - {k})[x]);
    }
  }

  /** Two maps with separate keys. */
  lemma TotalUnion<K(!new)>(a: map<K, real>, b: map<K, real>)
    requires a.Keys !! b.Keys
    ensures Total(a + b) == Total(a) + Total(b)
  {
    TotalSplit(a + b, a.Keys);
    assert (map k | k in a.Keys :: (a + b)[k]) == a;
    assert (a + b) - a.Keys == b;
  }

  /** Sums add entry by entry. */
  lemma {:induction false} TotalAdds<K(!new)>(a: map<K, real>, b: map<K, real>, c: map<K, real>)
    requires a.Keys == b.Keys == c.Keys && forall k :: k in a ==> c[k] == a[k] + b[k]
    ensures Total(c) == Total(a) + Total(b)
    decreases |a|
  {
    if a == map[] {
      assert b.Keys == {} && c.Keys == {};
      assert b == map[] && c == map[];
    } else {
      var k := AnyKey(a);
      SmallerMap(a, k);
      TotalRemove(a, k);
      TotalRemove(b, k);
      TotalRemove(c, k);
      TotalAdds(a - {k}, b - {k}, c - {k});
    }
  }
}
