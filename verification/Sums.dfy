/** Sums over finite maps, used to give byte counters their meaning. */
module Sums {

  ghost function Sum<K(!new)>(m: map<K, int>): int
    decreases |m|
  {
    if m.Keys == {} then 0 else
      var k :| k in m.Keys;
      m[k] + Sum(m - {k})
  }

  lemma Pick<K>(s: set<K>) returns (k: K)
    requires s != {}
    ensures k in s
  {
    k :| k in s;
  }

  lemma {:induction false} SumTake<K(!new)>(m: map<K, int>, k: K)
    requires k in m
    ensures Sum(m) == m[k] + Sum(m - {k})
    decreases |m|
  {
    var j :| j in m.Keys && Sum(m) == m[j] + Sum(m - {j});
    if j != k {
      SumTake(m - {j}, k);
      SumTake(m - {k}, j);
      assert m - {j} - {k} == m - {k} - {j};
    }
  }

  lemma SumPut<K(!new)>(m: map<K, int>, k: K, v: int)
    ensures Sum(m[k := v]) == Sum(m) + v - (if k in m then m[k] else 0)
  {
    SumTake(m[k := v], k);
    if k in m {
      SumTake(m, k);
      assert m[k := v] - {k} == m - {k};
    } else {
      assert m[k := v] - {k} == m;
    }
  }

  lemma {:induction false} SumNonnegative<K(!new)>(m: map<K, int>)
    requires forall k :: k in m ==> m[k] >= 0
    ensures Sum(m) >= 0
    decreases |m|
  {
    if m.Keys != {} {
      var k := Pick(m.Keys);
      SumTake(m, k);
      SumNonnegative(m - {k});
    }
  }

  /** Disjoint intervals inside `[lo, hi)` have no more than `hi - lo` points in all. */
  lemma {:induction false} SumWithin(m: map<int, int>, lo: int, hi: int)
    requires lo <= hi
    requires forall k :: k in m ==> lo <= k && m[k] >= 0 && k + m[k] <= hi
    requires forall j, k :: j in m && k in m && j < k ==> j + m[j] <= k
    ensures Sum(m) <= hi - lo
    decreases |m|
  {
    if m.Keys != {} {
      var k := Least(m.Keys);
      SumTake(m, k);
      SumWithin(m - {k}, k + m[k], hi);
    }
  }

  ghost function Only<K(!new)>(m: map<K, int>, s: set<K>): map<K, int> {
    map k | k in m && k in s :: m[k]
  }

  lemma OnlyTake<K(!new)>(m: map<K, int>, s: set<K>, k: K)
    requires k in m
    ensures k in s ==> Only(m, s) - {k} == Only(m - {k}, s) && m - {k} - s == m - s && k in Only(m, s)
    ensures k !in s ==> Only(m, s) == Only(m - {k}, s) && m - {k} - s == m - s - {k} && k in m - s
    ensures k in s ==> Only(m, s)[k] == m[k]
    ensures k !in s ==> (m - s)[k] == m[k]
  {}

  lemma {:induction false} SumSplit<K(!new)>(m: map<K, int>, s: set<K>)
    ensures Sum(m) == Sum(m - s) + Sum(Only(m, s))
    decreases |m|
  {
    if m.Keys == {} {
      assert m - s == m && Only(m, s) == m;
    } else {
      var k := Pick(m.Keys);
      SumTake(m, k);
      SumSplit(m - {k}, s);
      OnlyTake(m, s, k);
      if k in s {
        SumTake(Only(m, s), k);
      } else {
        SumTake(m - s, k);
      }
    }
  }

  /** Disjoint intervals, each inside one of some regions, have no more points than the regions. */
  lemma {:induction false} SumHoused(m: map<int, int>, home: map<int, int>, regions: map<int, int>)
    requires m.Keys == home.Keys
    requires forall r :: r in regions ==> regions[r] >= 0
    requires forall a {:trigger home[a]} :: a in m ==>
               home[a] in regions && home[a] <= a && m[a] >= 0 && a + m[a] <= home[a] + regions[home[a]]
    requires forall a, b :: a in m && b in m && a < b ==> a + m[a] <= b
    ensures Sum(m) <= Sum(regions)
    decreases |regions|
  {
    if regions.Keys == {} {
      assert m.Keys == {} by {
        assert forall a :: a in m.Keys ==> home[a] in regions.Keys;
      }
    } else {
      var r := Pick(regions.Keys);
      var s := set a | a in home && home[a] == r;
      SumSplit(m, s);
      SumWithin(Only(m, s), r, r + regions[r]);
      SumTake(regions, r);
      SumHoused(m - s, home - s, regions - {r});
    }
  }

  lemma {:induction false} Least(s: set<int>) returns (k: int)
    requires s != {}
    ensures k in s && forall j :: j in s ==> k <= j
    decreases |s|
  {
    k := Pick(s);
    if s != {k} {
      var j := Least(s - {k});
      assert s == (s - {k}) + {k};
      k := if j < k then j else k;
    }
  }
}
