/**
  The incrementally resizing hash table of hash_table.c. Two subtables are live
  at once; every successful lookup and every insertion moves one entry from the
  old one to the new one, and the table grows only when the old one has become
  empty.
 */
module HashTables {
  import opened Options

  const LOAD_FACTOR_LIMIT := 3

  /** Bucket chains, the head of each chain first. */
  datatype Subtable<D> = Subtable(buckets: seq<seq<D>>, count: nat)

  // ----- what a subtable holds -----

  ghost function Bag<D>(buckets: seq<seq<D>>): multiset<D> {
    if buckets == [] then multiset{} else Bag(buckets[..|buckets|-1]) + multiset(buckets[|buckets|-1])
  }

  /** The data bucket by bucket, each chain from its head. */
  ghost function InOrder<D>(buckets: seq<seq<D>>): seq<D> {
    if buckets == [] then [] else InOrder(buckets[..|buckets|-1]) + buckets[|buckets|-1]
  }

  lemma {:induction false} InOrderBag<D>(buckets: seq<seq<D>>)
    ensures multiset(InOrder(buckets)) == Bag(buckets)
  {
    if buckets != [] {
      InOrderBag(buckets[..|buckets|-1]);
    }
  }

  lemma InOrderNext<D>(buckets: seq<seq<D>>, k: nat)
    requires k < |buckets|
    ensures InOrder(buckets[..k+1]) == InOrder(buckets[..k]) + buckets[k]
  {
    assert buckets[..k+1][..k] == buckets[..k];
  }

  /** Pushing onto a chain adds one datum. */
  lemma {:induction false} BagPush<D>(b: seq<seq<D>>, i: nat, d: D)
    requires i < |b|
    ensures Bag(b[i := [d] + b[i]]) == Bag(b) + multiset{d}
  {
    var c, n := b[i := [d] + b[i]], |b| - 1;
    if i == n {
      assert c[..n] == b[..n];
      assert multiset(c[n]) == multiset{d} + multiset(b[n]);
    } else {
      BagPush(b[..n], i, d);
      assert c[..n] == b[..n][i := [d] + b[..n][i]];
    }
  }

  function Without<D>(chain: seq<D>, i: nat): seq<D>
    requires i < |chain|
  {
    chain[..i] + chain[i+1..]
  }

  lemma WithoutBag<D>(chain: seq<D>, i: nat)
    requires i < |chain|
    ensures multiset(chain) == multiset(Without(chain, i)) + multiset{chain[i]}
  {
    assert chain == chain[..i] + [chain[i]] + chain[i+1..];
  }

  /** Taking a link out of a chain removes one datum. */
  lemma {:induction false} BagTake<D>(b: seq<seq<D>>, i: nat, j: nat)
    requires i < |b| && j < |b[i]|
    ensures Bag(b) == Bag(b[i := Without(b[i], j)]) + multiset{b[i][j]}
  {
    var c, n := b[i := Without(b[i], j)], |b| - 1;
    if i == n {
      assert c[..n] == b[..n];
      WithoutBag(b[n], j);
    } else {
      BagTake(b[..n], i, j);
      assert c[..n] == b[..n][i := Without(b[..n][i], j)];
    }
  }

  lemma {:induction false} BagMember<D>(b: seq<seq<D>>, d: D)
    ensures d in Bag(b) <==> exists i :: 0 <= i < |b| && d in b[i]
  {
    if b != [] {
      var n := |b| - 1;
      BagMember(b[..n], d);
      if d in Bag(b[..n]) {
        var i :| 0 <= i < n && d in b[..n][i];
        assert d in b[i];
      }
      if exists i :: 0 <= i < |b| && d in b[i] {
        var i :| 0 <= i < |b| && d in b[i];
        assert i < n ==> d in b[..n][i];
      }
    }
  }

  lemma {:induction false} BagEmpty<D>(b: seq<seq<D>>)
    ensures Bag(b) == multiset{} <==> forall i :: 0 <= i < |b| ==> b[i] == []
  {
    if b != [] {
      var n := |b| - 1;
      BagEmpty(b[..n]);
      assert b[n] != [] ==> b[n][0] in multiset(b[n]);
      assert forall i :: 0 <= i < n ==> b[..n][i] == b[i];
    }
  }

  /** Every entry is in the bucket its hash selects. */
  ghost predicate Placed<D>(b: seq<seq<D>>, hash: D -> nat) {
    |b| > 0 && forall i, d :: 0 <= i < |b| && d in b[i] ==> hash(d) % |b| == i
  }

  /** `cmp_func` is an equivalence, and equal data hash equally. */
  ghost predicate Compatible<D(!new)>(hash: D -> nat, same: (D, D) -> bool) {
    var compatible :=
      && (forall d :: same(d, d))
      && (forall d, e :: same(d, e) ==> same(e, d) && hash(d) == hash(e))
      && (forall d, e, f :: same(d, e) && same(e, f) ==> same(d, f));
    compatible
  }

  ghost predicate UniqueKeys<D>(s: set<D>, same: (D, D) -> bool) {
    forall d, e :: d in s && e in s && same(d, e) ==> d == e
  }

  /** The first link of the chain whose datum matches. */
  function Position<D>(chain: seq<D>, same: (D, D) -> bool, key: D): (r: Option<nat>)
    ensures r.Some? ==> r.value < |chain| && same(key, chain[r.value])
    ensures r.None? ==> forall d :: d in chain ==> !same(key, d)
  {
    if chain == [] then None
    else if same(key, chain[0]) then Some(0)
    else
      match Position(chain[1..], same, key)
      case None => None
      case Some(i) => Some(i + 1)
  }

  lemma MoveOne<D>(a: multiset<D>, b: multiset<D>, d: D)
    ensures (a + multiset{d}) + b == a + (b + multiset{d})
    ensures |a + multiset{d}| == |a| + 1
  {}

  lemma SetAdd<D>(s: set<D>, d: D)
    requires d !in s
    ensures multiset(s + {d}) == multiset(s) + multiset{d}
  {}

  /** If a bag and one more datum are a set, the bag is the set without that datum. */
  lemma SetDrop<D>(s: set<D>, a: multiset<D>, d: D)
    requires a + multiset{d} == multiset(s)
    ensures d in s && a == multiset(s - {d}) && |s - {d}| == |s| - 1
  {
    assert d in a + multiset{d};
    assert multiset(s) == multiset(s - {d}) + multiset{d};
    forall e ensures a[e] == multiset(s - {d})[e] {
      assert (a + multiset{d})[e] == a[e] + multiset{d}[e];
      assert (multiset(s - {d}) + multiset{d})[e] == multiset(s - {d})[e] + multiset{d}[e];
    }
  }

  lemma PlacedUpdate<D>(b: seq<seq<D>>, hash: D -> nat, i: nat, chain: seq<D>)
    requires Placed(b, hash) && i < |b|
    requires forall d :: d in chain ==> d in b[i] || hash(d) % |b| == i
    ensures Placed(b[i := chain], hash)
  {}

  // ----- the two subtables together -----

  /** Two subtables hold one set of data with distinct keys, each datum in its bucket. */
  ghost predicate Holds<D>(o: Subtable<D>, n: Subtable<D>, contents: set<D>, hash: D -> nat, same: (D, D) -> bool) {
    var holds :=
      && Placed(o.buckets, hash) && Placed(n.buckets, hash)
      && Bag(o.buckets) + Bag(n.buckets) == multiset(contents)
      && UniqueKeys(contents, same)
      && o.count == |Bag(o.buckets)| && n.count == |Bag(n.buckets)|;
    holds
  }

  /** The buckets of the old table that have been passed are empty. */
  ghost predicate Passed<D>(o: Subtable<D>, next: nat) {
    var passed := next <= |o.buckets| && forall i :: 0 <= i < next ==> o.buckets[i] == [];
    passed
  }

  lemma HoldsCount<D>(o: Subtable<D>, n: Subtable<D>, contents: set<D>, hash: D -> nat, same: (D, D) -> bool)
    requires Holds(o, n, contents, hash, same)
    ensures o.count + n.count == |contents| && |o.buckets| > 0 && |n.buckets| > 0
  {
    assert |Bag(o.buckets) + Bag(n.buckets)| == |Bag(o.buckets)| + |Bag(n.buckets)|;
    SetSize(contents);
  }

  lemma {:induction false} SetSize<D>(s: set<D>)
    ensures |multiset(s)| == |s|
  {}

  function Popped<D>(st: Subtable<D>, i: nat): Subtable<D>
    requires i < |st.buckets| && st.buckets[i] != [] && st.count > 0
  {
    Subtable(st.buckets[i := st.buckets[i][1..]], st.count - 1)
  }

  function Pushed<D>(st: Subtable<D>, i: nat, d: D): Subtable<D>
    requires i < |st.buckets|
  {
    Subtable(st.buckets[i := [d] + st.buckets[i]], st.count + 1)
  }

  function Unlinked<D>(st: Subtable<D>, i: nat, j: nat): Subtable<D>
    requires i < |st.buckets| && j < |st.buckets[i]| && st.count > 0
  {
    Subtable(st.buckets[i := Without(st.buckets[i], j)], st.count - 1)
  }

  /** The move takes a datum out of one bag and puts it into the other. */
  lemma MoveVictim<D>(o: Subtable<D>, n: Subtable<D>, contents: set<D>, hash: D -> nat, same: (D, D) -> bool, i: nat)
    requires Holds(o, n, contents, hash, same) && i < |o.buckets| && o.buckets[i] != []
    ensures o.count > 0 && |n.buckets| > 0
    ensures var d := o.buckets[i][0];
            Holds(Popped(o, i), Pushed(n, hash(d) % |n.buckets|, d), contents, hash, same)
  {
    var chain := o.buckets[i];
    var d := chain[0];
    var k := hash(d) % |n.buckets|;
    assert chain[1..] == Without(chain, 0);
    BagTake(o.buckets, i, 0);
    BagPush(n.buckets, k, d);
    MoveOne(Bag(o.buckets[i := chain[1..]]), Bag(n.buckets), d);
    MoveOne(Bag(n.buckets), Bag(o.buckets), d);
    PlacedUpdate(o.buckets, hash, i, chain[1..]);
    PlacedUpdate(n.buckets, hash, k, [d] + n.buckets[k]);
  }

  /** A datum with this key, if there is one, is in one of the two buckets the key selects. */
  lemma Found<D>(o: Subtable<D>, n: Subtable<D>, contents: set<D>, hash: D -> nat, same: (D, D) -> bool, key: D, d: D)
    requires Holds(o, n, contents, hash, same) && hash(key) == hash(d)
    ensures |o.buckets| > 0 && |n.buckets| > 0
    ensures d in contents <==> d in n.buckets[hash(key) % |n.buckets|] || d in o.buckets[hash(key) % |o.buckets|]
  {
    BagMember(o.buckets, d);
    BagMember(n.buckets, d);
    assert d in contents <==> d in Bag(o.buckets) + Bag(n.buckets);
  }

  lemma AddDatum<D(!new)>(o: Subtable<D>, n: Subtable<D>, contents: set<D>, hash: D -> nat,
                          same: (D, D) -> bool, datum: D)
    requires Compatible(hash, same) && Holds(o, n, contents, hash, same)
    requires forall d :: d in contents ==> !same(datum, d)
    ensures datum !in contents && |n.buckets| > 0
    ensures Holds(o, Pushed(n, hash(datum) % |n.buckets|, datum), contents + {datum}, hash, same)
  {
    var i := hash(datum) % |n.buckets|;
    BagPush(n.buckets, i, datum);
    MoveOne(Bag(n.buckets), Bag(o.buckets), datum);
    SetAdd(contents, datum);
    PlacedUpdate(n.buckets, hash, i, [datum] + n.buckets[i]);
    assert Bag(o.buckets) + (Bag(n.buckets) + multiset{datum}) == (Bag(o.buckets) + Bag(n.buckets)) + multiset{datum};
  }

  lemma DropDatum<D(!new)>(st: Subtable<D>, other: Subtable<D>, contents: set<D>, hash: D -> nat,
                           same: (D, D) -> bool, key: D, i: nat, j: nat)
    requires Compatible(hash, same) && Holds(st, other, contents, hash, same)
    requires i < |st.buckets| && j < |st.buckets[i]| && same(key, st.buckets[i][j])
    ensures var d := st.buckets[i][j];
            && d in contents && st.count > 0 && Holds(Unlinked(st, i, j), other, contents - {d}, hash, same)
            && contents - {d} == (set e | e in contents && !same(key, e))
  {
    var d, b := st.buckets[i][j], st.buckets[i := Without(st.buckets[i], j)];
    BagTake(st.buckets, i, j);
    MoveOne(Bag(b), Bag(other.buckets), d);
    assert Bag(st.buckets) + Bag(other.buckets) == (Bag(b) + Bag(other.buckets)) + multiset{d};
    SetDrop(contents, Bag(b) + Bag(other.buckets), d);
    PlacedUpdate(st.buckets, hash, i, Without(st.buckets[i], j));
  }

  lemma HoldsSwapped<D>(o: Subtable<D>, n: Subtable<D>, contents: set<D>, hash: D -> nat, same: (D, D) -> bool)
    requires Holds(o, n, contents, hash, same)
    ensures Holds(n, o, contents, hash, same)
  {}

  /** The load factor exceeds its limit exactly from four entries a bucket on. */
  lemma LoadLimit(count: nat, buckets: nat)
    requires buckets > 0
    ensures count / buckets > LOAD_FACTOR_LIMIT <==> count >= 4 * buckets
  {}

  /** Once every bucket is passed the old table is empty. */
  lemma AllPassed<D>(o: Subtable<D>, n: Subtable<D>, contents: set<D>, hash: D -> nat, same: (D, D) -> bool, next: nat)
    requires Holds(o, n, contents, hash, same) && Passed(o, next)
    ensures next == |o.buckets| ==> o.count == 0
  {
    BagEmpty(o.buckets);
  }

  lemma PassedPopped<D>(o: Subtable<D>, next: nat)
    requires Passed(o, next) && next < |o.buckets| && o.buckets[next] != [] && o.count > 0
    ensures Passed(Popped(o, next), next)
  {}

  lemma EmptyHolds<D>(o: Subtable<D>, n: Subtable<D>, next: nat, hash: D -> nat, same: (D, D) -> bool)
    requires |o.buckets| > 0 && |n.buckets| > 0 && o.count == n.count == 0 && next <= |o.buckets|
    requires forall i :: 0 <= i < |o.buckets| ==> o.buckets[i] == []
    requires forall i :: 0 <= i < |n.buckets| ==> n.buckets[i] == []
    ensures Holds(o, n, {}, hash, same) && Passed(o, next)
  {
    BagEmpty(o.buckets);
    BagEmpty(n.buckets);
  }

  class HashTable<D(!new,==)> {
    const hash: D -> nat
    const same: (D, D) -> bool
    var oldTable: Subtable<D>
    var nextOldBucket: nat
    var newTable: Subtable<D>
    var count: nat
    var visiting: nat
    /** What the table represents. */
    ghost var contents: set<D>

    /** Everything but the potential. */
    ghost predicate Sound()
      reads this
    {
      var sound :=
        && Compatible(hash, same) && Holds(oldTable, newTable, contents, hash, same)
        && Passed(oldTable, nextOldBucket) && count == |contents|;
      sound
    }

    /** `Sound`, with the potential that makes the old table empty before the load limit is reached. */
    ghost predicate Potential()
      reads this
    {
      Sound() && oldTable.count + count < 4 * |newTable.buckets|
    }

    /** `Potential` for callers, stated through `Opened` so that only the methods that call `Open` look inside. */
    ghost predicate Valid()
      reads this
    {
      forall s: set<D> {:trigger Opened(s)} :: Opened(s) && s == contents ==> Potential()
    }

    static ghost predicate Opened(s: set<D>) { true }

    lemma Open()
      requires Valid()
      ensures Potential()
    {
      assert Opened(contents);
    }

    lemma Close()
      requires Potential()
      ensures Valid()
    {
    }

    constructor (hash: D -> nat, same: (D, D) -> bool)
      requires Compatible(hash, same)
      ensures Valid() && contents == {} && visiting == 0 && this.hash == hash && this.same == same
    {
      this.hash, this.same := hash, same;
      count, visiting, contents := 0, 0, {};
      oldTable, nextOldBucket := Subtable([[]], 0), 1;
      newTable := Subtable([[], []], 0);
      new;
      BagEmpty(oldTable.buckets);
      BagEmpty(newTable.buckets);
      Close();
    }

    /** Moves one entry of the old table, if there is one, to the head of its new bucket. */
    method ShiftOne()
      requires Sound()
      modifies this`oldTable, this`nextOldBucket, this`newTable
      ensures Sound()
      ensures oldTable.count == (if old(oldTable.count) == 0 then 0 else old(oldTable.count) - 1)
      ensures |newTable.buckets| == old(|newTable.buckets|)
    {
      var next := nextOldBucket;
      while next < |oldTable.buckets| && oldTable.buckets[next] == []
        invariant Passed(oldTable, next)
        decreases |oldTable.buckets| - next
      {
        next := next + 1;
      }
      nextOldBucket := next;
      AllPassed(oldTable, newTable, contents, hash, same, next);
      if nextOldBucket == |oldTable.buckets| {
        return;
      }
      MoveVictim(oldTable, newTable, contents, hash, same, nextOldBucket);
      PassedPopped(oldTable, nextOldBucket);
      var victim := oldTable.buckets[nextOldBucket][0];
      newTable := Pushed(newTable, hash(victim) % |newTable.buckets|, victim);
      oldTable := Popped(oldTable, nextOldBucket);
    }

    /** Which subtable holds a datum with this key, and where in its chain. */
    function FindPrecedingLink(key: D): (r: Option<(bool, nat)>)
      reads this
      requires |oldTable.buckets| > 0 && |newTable.buckets| > 0
    {
      match Position(newTable.buckets[hash(key) % |newTable.buckets|], same, key)
      case Some(i) => Some((true, i))
      case None =>
        match Position(oldTable.buckets[hash(key) % |oldTable.buckets|], same, key)
        case Some(i) => Some((false, i))
        case None => None
    }

    lemma LinkFound(key: D)
      requires Sound()
      ensures |oldTable.buckets| > 0 && |newTable.buckets| > 0
      ensures var r := FindPrecedingLink(key);
              && (r.None? <==> forall d :: d in contents ==> !same(key, d))
              && (r.Some? ==>
                    var st := if r.value.0 then newTable else oldTable;
                    var i := hash(key) % |st.buckets|;
                    && r.value.1 < |st.buckets[i]| && same(key, st.buckets[i][r.value.1])
                    && st.buckets[i][r.value.1] in contents)
    {
      HoldsCount(oldTable, newTable, contents, hash, same);
      forall d | same(key, d)
        ensures d in contents <==>
                || d in newTable.buckets[hash(key) % |newTable.buckets|]
                || d in oldTable.buckets[hash(key) % |oldTable.buckets|]
      {
        Found(oldTable, newTable, contents, hash, same, key, d);
      }
    }

    /** The stored match, exactly when there is one; a hit moves one entry along. */
    method Lookup(key: D) returns (r: Option<D>)
      requires Valid()
      modifies this`oldTable, this`nextOldBucket, this`newTable
      ensures Valid() && |newTable.buckets| == old(|newTable.buckets|)
      ensures oldTable.count == old(oldTable.count) - if r.Some? && old(oldTable.count) > 0 then 1 else 0
      ensures r.None? ==> forall d :: d in contents ==> !same(key, d)
      ensures r.Some? ==> r.value in contents && same(key, r.value)
    {
      Open();
      LinkFound(key);
      var link := FindPrecedingLink(key);
      if link.None? {
        return None;
      }
      var st := if link.value.0 then newTable else oldTable;
      var target := st.buckets[hash(key) % |st.buckets|][link.value.1];
      ShiftOne();
      Close();
      r := Some(target);
    }

    /** Only an empty old table is thrown away. */
    method Grow()
      requires Sound() && oldTable.count == 0
      modifies this`oldTable, this`nextOldBucket, this`newTable
      ensures Sound()
      ensures |newTable.buckets| == 2 * old(|newTable.buckets|) && oldTable == old(newTable)
    {
      BagEmpty(oldTable.buckets);
      assert forall i :: 0 <= i < |oldTable.buckets| ==> oldTable.buckets[i] == [];
      oldTable := newTable;
      newTable := Subtable(seq(2 * |oldTable.buckets|, _ => []), 0);
      BagEmpty(newTable.buckets);
      nextOldBucket := 0;
    }

    /**
      Puts `datum` in unless a datum with its key is there; `assertAbsent` is
      `hash_table_insert`, otherwise `hash_table_union`.
     */
    method InsertInner(datum: D, assertAbsent: bool)
      requires Valid() && visiting == 0
      requires assertAbsent ==> forall d :: d in contents ==> !same(datum, d)
      modifies this`oldTable, this`nextOldBucket, this`newTable, this`count, this`contents
      ensures Valid()
      ensures contents ==
              if exists d :: d in old(contents) && same(datum, d) then old(contents) else old(contents) + {datum}
      ensures old(count) == |old(contents)| && count == |contents|
      ensures |newTable.buckets| ==
              if count > old(count) && count >= 4 * old(|newTable.buckets|) then 2 * old(|newTable.buckets|)
              else old(|newTable.buckets|)
    {
      Open();
      var hit := Lookup(datum);
      if hit.Some? {
        assert !assertAbsent;
        return;
      }
      Open();
      AddLink(datum);
      LoadLimit(count, |newTable.buckets|);
      assert oldTable.count + count <= 4 * |newTable.buckets|;
      var loadFactor := count / |newTable.buckets|;
      if loadFactor > LOAD_FACTOR_LIMIT {
        assert oldTable.count == 0;
        Grow();
      }
      ShiftOne();
      Close();
    }

    /** A new link at the head of its bucket in the new table. */
    method AddLink(datum: D)
      requires Sound() && forall d :: d in contents ==> !same(datum, d)
      modifies this`newTable, this`count, this`contents
      ensures Sound() && contents == old(contents) + {datum} && count == old(count) + 1
      ensures |newTable.buckets| == old(|newTable.buckets|) > 0 && newTable.count + oldTable.count == count
    {
      AddDatum(oldTable, newTable, contents, hash, same, datum);
      newTable := Pushed(newTable, hash(datum) % |newTable.buckets|, datum);
      count := count + 1;
      contents := contents + {datum};
      HoldsCount(oldTable, newTable, contents, hash, same);
    }

    /** Takes out the datum with this key, which must be there. */
    method Remove(key: D)
      requires Valid() && visiting == 0 && exists d :: d in contents && same(key, d)
      modifies this`oldTable, this`newTable, this`count, this`contents
      ensures Valid()
      ensures contents == set d | d in old(contents) && !same(key, d)
    {
      Open();
      LinkFound(key);
      var link := FindPrecedingLink(key);
      assert link.Some?;
      var (inNew, j) := link.value;
      if inNew {
        var i := hash(key) % |newTable.buckets|;
        HoldsSwapped(oldTable, newTable, contents, hash, same);
        DropDatum(newTable, oldTable, contents, hash, same, key, i, j);
        contents := contents - {newTable.buckets[i][j]};
        newTable := Unlinked(newTable, i, j);
        HoldsSwapped(newTable, oldTable, contents, hash, same);
      } else {
        var i := hash(key) % |oldTable.buckets|;
        DropDatum(oldTable, newTable, contents, hash, same, key, i, j);
        contents := contents - {oldTable.buckets[i][j]};
        oldTable := Unlinked(oldTable, i, j);
      }
      count := count - 1;
      Close();
    }

    /** The data of one subtable in the order the callback sees them: bucket by bucket, each chain from its head. */
    static method VisitSubtable(st: Subtable<D>) returns (visited: seq<D>)
      ensures multiset(visited) == Bag(st.buckets)
    {
      visited := [];
      var bucket := 0;
      while bucket < |st.buckets|
        invariant bucket <= |st.buckets| && visited == InOrder(st.buckets[..bucket])
      {
        var chain := st.buckets[bucket];
        var hl := 0;
        while hl < |chain|
          invariant hl <= |chain| && visited == InOrder(st.buckets[..bucket]) + chain[..hl]
        {
          visited := visited + [chain[hl]];
          hl := hl + 1;
        }
        assert chain[..|chain|] == chain && st.buckets[..bucket+1][..bucket] == st.buckets[..bucket];
        bucket := bucket + 1;
      }
      assert st.buckets[..bucket] == st.buckets;
      InOrderBag(st.buckets);
    }

    /** Every datum is visited once, when the callback leaves the table alone. */
    method VisitEvery() returns (visited: seq<D>)
      requires Valid()
      modifies this`visiting
      ensures Valid() && visiting == old(visiting)
      ensures multiset(visited) == multiset(contents)
    {
      Open();
      visiting := visiting + 1;
      var first := VisitSubtable(oldTable);
      var second := VisitSubtable(newTable);
      visited := first + second;
      visiting := visiting - 1;
      Close();
    }

    static method EmptyChain(chain: seq<D>, before: seq<D>, stCount: int, count: int)
      returns (visited: seq<D>, stLeft: int, left: int)
      ensures visited == before + chain && stLeft == stCount - |chain| && left == count - |chain|
    {
      visited, stLeft, left := before, stCount, count;
      var hl := 0;
      while hl < |chain|
        invariant hl <= |chain| && visited == before + chain[..hl] && stLeft == stCount - hl && left == count - hl
      {
        visited := visited + [chain[hl]];
        hl := hl + 1;
        stLeft := stLeft - 1;
        left := left - 1;
      }
    }

    /** Takes one subtable's links off chain by chain, counting each off the subtable and off the table. */
    static method EmptySubtable(st: Subtable<D>, count: nat)
      returns (emptied: Subtable<D>, left: int, visited: seq<D>)
      requires st.count == |Bag(st.buckets)|
      ensures multiset(visited) == Bag(st.buckets) && left == count - st.count
      ensures |emptied.buckets| == |st.buckets| && emptied.count == 0
      ensures forall i :: 0 <= i < |emptied.buckets| ==> emptied.buckets[i] == []
    {
      visited := [];
      left := count;
      var buckets, stCount: int := st.buckets, st.count;
      var bucket := 0;
      while bucket < |buckets|
        invariant bucket <= |buckets| == |st.buckets| && visited == InOrder(st.buckets[..bucket])
        invariant forall i :: 0 <= i < |buckets| ==> buckets[i] == if i < bucket then [] else st.buckets[i]
        invariant stCount == st.count - |visited| && left == count - |visited|
      {
        var chain := buckets[bucket];
        buckets := buckets[bucket := []];
        visited, stCount, left := EmptyChain(chain, visited, stCount, left);
        InOrderNext(st.buckets, bucket);
        bucket := bucket + 1;
      }
      assert st.buckets[..bucket] == st.buckets;
      InOrderBag(st.buckets);
      assert |multiset(visited)| == |visited|;
      emptied := Subtable(buckets, stCount);
    }

    /** Every datum is handed to the callback once, and the table is left empty. */
    method RemoveEvery() returns (visited: seq<D>)
      requires Valid()
      modifies this`oldTable, this`newTable, this`count, this`contents
      ensures Valid() && contents == {} && count == 0
      ensures multiset(visited) == multiset(old(contents))
    {
      Open();
      HoldsCount(oldTable, newTable, contents, hash, same);
      var first, left, second;
      oldTable, left, first := EmptySubtable(oldTable, count);
      newTable, left, second := EmptySubtable(newTable, left);
      count := left;
      assert count == 0;
      visited := first + second;
      contents := {};
      EmptyHolds(oldTable, newTable, nextOldBucket, hash, same);
      Close();
    }

    /** The callback of `hash_table_subtract`. */
    method SubtractWorker(datum: D)
      requires Valid() && visiting == 0
      modifies this`oldTable, this`nextOldBucket, this`newTable, this`count, this`contents
      ensures Valid() && contents == Remaining(old(contents), [datum], same)
    {
      RemainingOne(contents, datum, same);
      var hit := Lookup(datum);
      if hit.Some? {
        Remove(datum);
      }
    }

    /** Takes out whatever matches a member of `other`; the lookups on the way move entries along. */
    method Subtract(other: HashTable<D>)
      requires Valid() && other.Valid() && other != this && visiting == 0
      requires other.hash == hash && other.same == same
      modifies this`oldTable, this`nextOldBucket, this`newTable, this`count, this`contents, other`visiting
      ensures Valid() && other.Valid() && other.visiting == old(other.visiting)
      ensures forall d :: d in contents <==> d in old(contents) && forall e :: e in other.contents ==> !same(e, d)
    {
      var visited := other.VisitEvery();
      var i := 0;
      while i < |visited|
        invariant Valid() && other.Valid() && i <= |visited| && other.visiting == old(other.visiting)
        invariant contents == Remaining(old(contents), visited[..i], same)
      {
        RemainingStep(old(contents), visited, same, i);
        SubtractWorker(visited[i]);
        i := i + 1;
      }
      RemainingAll(old(contents), other.contents, visited, same);
    }
  }

  /** What is left of `s` without the matches of `xs`. */
  function Remaining<D>(s: set<D>, xs: seq<D>, same: (D, D) -> bool): set<D> {
    set d | d in s && forall j :: 0 <= j < |xs| ==> !same(xs[j], d)
  }

  lemma RemainingOne<D>(s: set<D>, d: D, same: (D, D) -> bool)
    ensures Remaining(s, [d], same) == set e | e in s && !same(d, e)
    ensures (forall e :: e in s ==> !same(d, e)) ==> Remaining(s, [d], same) == s
  {
    assert [d][0] == d;
  }

  lemma RemainingStep<D>(s: set<D>, xs: seq<D>, same: (D, D) -> bool, i: nat)
    requires i < |xs|
    ensures Remaining(s, xs[..i+1], same) == Remaining(Remaining(s, xs[..i], same), [xs[i]], same)
  {
    forall d
      ensures d in Remaining(s, xs[..i+1], same) <==> d in Remaining(Remaining(s, xs[..i], same), [xs[i]], same)
    {
      assert xs[..i+1][i] == xs[i] && [xs[i]][0] == xs[i];
      assert forall j :: 0 <= j < i ==> xs[..i+1][j] == xs[..i][j];
    }
  }

  lemma RemainingAll<D>(s: set<D>, t: set<D>, visited: seq<D>, same: (D, D) -> bool)
    requires multiset(visited) == multiset(t)
    ensures forall d :: d in Remaining(s, visited[..|visited|], same) <==> d in s && forall e :: e in t ==> !same(e, d)
  {
    assert visited[..|visited|] == visited;
    forall e ensures e in t <==> e in visited {
      assert e in t <==> e in multiset(t);
      assert e in visited <==> e in multiset(visited);
    }
    assert forall j :: 0 <= j < |visited| ==> visited[j] in t;
  }
}
