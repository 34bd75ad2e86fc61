/**
  The state of the coalescing allocator as values: the free ranges under their
  two indexes, the allocated fragments, and the reference counts of the user
  objects. Each lemma is about one change the allocator makes.
 */
module CoalescingSpec {
  import opened Ranges
  import opened Options
  import Avl
  import opened RangeTrees
  import opened Words
  import opened Folding

  // ----- free ranges, indexed by size and by start -----

  /** Free ranges are nonempty and never touch or overlap. */
  ghost predicate FreeSet(m: map<int, Range>) {
    forall u {:trigger Seen(u)} :: Seen(u) ==> Spaced(m) && Nonempty(m)
  }

  /** Both indexes hold the same ranges; these are nonempty and never touch or overlap. */
  ghost predicate FreeOk(bySize: map<int, Range>, byStart: map<int, Range>) {
    FreeSet(byStart) && Indexed(bySize, byStart)
  }

  ghost predicate Indexed(bySize: map<int, Range>, byStart: map<int, Range>) {
    forall u {:trigger Seen(u)} :: Seen(u) ==>
      && (forall q :: q in bySize ==>
            q == SizeKey(bySize[q]) && bySize[q].start in byStart && byStart[bySize[q].start] == bySize[q])
      && (forall k :: k in byStart ==> SizeKey(byStart[k]) in bySize && bySize[SizeKey(byStart[k])] == byStart[k])
  }

  lemma SizeKeysDiffer(a: Range, b: Range)
    requires a.start < WORD && b.start < WORD && a.start != b.start
    ensures SizeKey(a) != SizeKey(b)
  {}

  lemma FreeAdd(bySize: map<int, Range>, byStart: map<int, Range>, r: Range)
    requires FreeOk(bySize, byStart) && r.Proper()
    requires forall k :: k in byStart ==> r.end < k || byStart[k].end < r.start
    ensures SizeKey(r) !in bySize && r.start !in byStart
    ensures FreeOk(bySize[SizeKey(r) := r], byStart[r.start := r])
    ensures forall x :: Covers(byStart[r.start := r], x) <==> Covers(byStart, x) || r.Has(x)
  {
    assert Seen(0);
    SpacedAdd(byStart, r);
    assert r.start !in byStart;
    forall q | q in bySize ensures q != SizeKey(r) {
      SizeKeysDiffer(bySize[q], r);
    }
  }

  lemma FreeDrop(bySize: map<int, Range>, byStart: map<int, Range>, k: int)
    requires FreeOk(bySize, byStart) && k in byStart
    ensures SizeKey(byStart[k]) in bySize
    ensures FreeOk(bySize - {SizeKey(byStart[k])}, byStart - {k})
    ensures forall x :: Covers(byStart - {k}, x) <==> Covers(byStart, x) && !byStart[k].Has(x)
  {
    FreeSetDrop(byStart, k);
    IndexedDrop(bySize, byStart, k);
  }

  lemma FreeSetDrop(m: map<int, Range>, k: int)
    requires FreeSet(m) && k in m
    ensures FreeSet(m - {k}) && m[k].start == k && m[k].Proper()
    ensures forall x :: Covers(m - {k}, x) <==> Covers(m, x) && !m[k].Has(x)
  {
    assert Seen(0);
    SpacedDrop(m, k);
  }

  lemma IndexedDrop(bySize: map<int, Range>, byStart: map<int, Range>, k: int)
    requires FreeSet(byStart) && Indexed(bySize, byStart) && k in byStart
    ensures SizeKey(byStart[k]) in bySize && Indexed(bySize - {SizeKey(byStart[k])}, byStart - {k})
  {
    assert Seen(0);
    forall j | j in byStart && j != k ensures SizeKey(byStart[j]) != SizeKey(byStart[k]) {
      SizeKeysDiffer(byStart[j], byStart[k]);
    }
  }

  /** `r` shares no point with a range of `m`. */
  ghost predicate Clear(m: map<int, Range>, r: Range) {
    forall k :: k in m ==> r.end <= k || m[k].end <= r.start
  }

  /** What the two neighbour lookups of `_create_empty_range_nolock` find about a clear range. */
  lemma Neighbours(m: map<int, Range>, r: Range, following: Option<(int, Range)>, preceding: Option<(int, Range)>)
    requires FreeSet(m) && r.Proper()
    requires Avl.AVLTree.IsCeiling(m, r.start, following) && Avl.AVLTree.IsFloor(m, r.start, preceding)
    ensures Clear(m, r) <==>
              && (following.Some? ==> following.value.1.start >= r.end)
              && (preceding.Some? ==> preceding.value.1.end <= r.start)
    ensures Clear(m, r) && r.end in m ==> following.Some? && following.value.0 == r.end
    ensures Clear(m, r) && r.end !in m && (preceding.Some? ==> preceding.value.1.end != r.start) ==>
              forall k :: k in m ==> r.end < k || m[k].end < r.start
  {
    assert Seen(0);
  }

  /** Joining with the following range: a clear, wider range that no free range follows. */
  lemma JoinRight(bySize: map<int, Range>, byStart: map<int, Range>, r: Range)
    requires FreeOk(bySize, byStart) && r.Proper() && Clear(byStart, r) && r.end in byStart
    ensures var u := Range(r.start, byStart[r.end].end); var m := byStart - {r.end};
            && u.Proper() && Clear(m, u) && u.end !in m
            && forall x :: Covers(m, x) || u.Has(x) <==> Covers(byStart, x) || r.Has(x)
  {
    FreeSetDrop(byStart, r.end);
    Joined(byStart, r.end, r, Range(r.start, byStart[r.end].end));
    assert Seen(0);
  }

  lemma Joined(m: map<int, Range>, k: int, r: Range, u: Range)
    requires FreeSet(m) && k in m && forall x :: u.Has(x) <==> m[k].Has(x) || r.Has(x)
    ensures forall x :: Covers(m - {k}, x) || u.Has(x) <==> Covers(m, x) || r.Has(x)
  {
    FreeSetDrop(m, k);
    forall x ensures m[k].Has(x) ==> Covers(m, x) {
    }
  }

  /** Joining with the preceding range: a range that keeps its distance. */
  lemma JoinLeft(bySize: map<int, Range>, byStart: map<int, Range>, r: Range, k: int)
    requires FreeOk(bySize, byStart) && r.Proper() && Clear(byStart, r) && r.end !in byStart
    requires k in byStart && byStart[k].end == r.start
    ensures byStart[k].start == k
    ensures var u := Range(byStart[k].start, r.end); var m := byStart - {k};
            && u.Proper() && (forall j :: j in m ==> u.end < j || m[j].end < u.start)
            && forall x :: Covers(m, x) || u.Has(x) <==> Covers(byStart, x) || r.Has(x)
  {
    FreeSetDrop(byStart, k);
    Joined(byStart, k, r, Range(byStart[k].start, r.end));
    KeepsDistance(byStart, r, k);
  }

  lemma KeepsDistance(m: map<int, Range>, r: Range, k: int)
    requires FreeSet(m) && r.Proper() && Clear(m, r) && r.end !in m && k in m && m[k].end == r.start
    ensures forall j :: j in m - {k} ==> r.end < j || m[j].end < m[k].start
  {
    assert Seen(0);
  }

  /** `k` starts the smallest range that is large enough; among equals, the lowest. */
  ghost predicate BestFit(m: map<int, Range>, size: nat, k: int) {
    && k in m && m[k].Size() >= size
    && forall j :: j in m && m[j].Size() >= size ==> m[k].Size() < m[j].Size() || (m[k].Size() == m[j].Size() && k <= j)
  }

  /** The least size key from (size, 0) on is the best fit; there is none when nothing is large enough. */
  lemma CeilingIsBestFit(bySize: map<int, Range>, byStart: map<int, Range>, size: nat, e: Option<(int, Range)>)
    requires FreeOk(bySize, byStart) && Avl.AVLTree.IsCeiling(bySize, SizeKey(Range(0, size)), e)
    ensures e.None? ==> forall j :: j in byStart ==> byStart[j].Size() < size
    ensures e.Some? ==>
      && e.value.0 == SizeKey(e.value.1) && BestFit(byStart, size, e.value.1.start)
      && byStart[e.value.1.start] == e.value.1
  {
    assert Seen(0);
  }

  /** The front of a free range is handed out: what is left, if anything, keeps its distance. */
  lemma CarveFront(bySize: map<int, Range>, byStart: map<int, Range>, k: int, size: nat)
    requires FreeOk(bySize, byStart) && k in byStart && 0 < size <= byStart[k].Size()
    ensures byStart[k].start == k
    ensures var m, start := byStart - {k}, byStart[k].start;
            var leftover := Range(start + size, byStart[k].end);
            && Range(start, start + size).Proper() && Clear(m, Range(start, start + size))
            && (leftover.Size() > 0 ==> leftover.Proper() && Clear(m, leftover) && leftover.end !in m)
  {
    FreeSetDrop(byStart, k);
    RestClear(byStart, k);
  }

  lemma RestClear(m: map<int, Range>, k: int)
    requires FreeSet(m) && k in m
    ensures Clear(m - {k}, m[k]) && m[k].end !in m
  {
    assert Seen(0);
  }

  // ----- allocated fragments -----

  datatype Fragment = Fragment(range: Range, obj: nat)

  ghost predicate Owned(alloc: map<int, Fragment>, x: int, o: nat) {
    exists k :: k in alloc && alloc[k].range.Has(x) && alloc[k].obj == o
  }

  ghost predicate Taken(alloc: map<int, Fragment>, x: int) {
    exists k :: k in alloc && alloc[k].range.Has(x)
  }

  /** Fragments are nonempty, pairwise disjoint, and disjoint from the free ranges. */
  ghost predicate AllocOk(alloc: map<int, Fragment>, byStart: map<int, Range>) {
    forall u {:trigger Seen(u)} :: Seen(u) ==>
      && (forall k :: k in alloc ==> alloc[k].range.start == k && alloc[k].range.Proper())
      && (forall j, k :: j in alloc && k in alloc && j < k ==> alloc[j].range.end <= k)
      && (forall k :: k in alloc ==> Clear(byStart, alloc[k].range))
  }

  /** Disjointness, said by points. */
  lemma ClearByPoints(m: map<int, Range>, r: Range)
    requires FreeSet(m) && r.Proper()
    ensures Clear(m, r) <==> forall x :: !(Covers(m, x) && r.Has(x))
  {
    assert Seen(0);
    if Clear(m, r) {
      forall x | Covers(m, x) ensures !r.Has(x) {
        var k :| k in m && m[k].Has(x);
      }
    } else {
      var k :| k in m && !(r.end <= k || m[k].end <= r.start);
      var x := if k < r.start then r.start else k;
      assert m[k].Has(x) && Covers(m, x) && r.Has(x);
    }
  }

  /** Only the points of the free set matter to the fragments. */
  lemma AllocOkByPoints(alloc: map<int, Fragment>, m: map<int, Range>, n: map<int, Range>)
    requires AllocOk(alloc, m) && FreeSet(m) && FreeSet(n)
    requires forall x :: Covers(n, x) && Taken(alloc, x) ==> Covers(m, x)
    ensures AllocOk(alloc, n)
  {
    assert Seen(0);
    forall k | k in alloc ensures Clear(n, alloc[k].range) {
      ClearByPoints(m, alloc[k].range);
      ClearByPoints(n, alloc[k].range);
      forall x ensures !(Covers(n, x) && alloc[k].range.Has(x)) {
        assert alloc[k].range.Has(x) ==> Taken(alloc, x);
      }
    }
  }

  /** A new fragment over points that are neither allocated nor, any longer, free. */
  lemma AllocAdd(alloc: map<int, Fragment>, byStart: map<int, Range>, r: Range, o: nat)
    requires AllocOk(alloc, byStart) && r.Proper() && Clear(byStart, r)
    requires forall x :: r.Has(x) ==> !Taken(alloc, x)
    ensures r.start !in alloc && AllocOk(alloc[r.start := Fragment(r, o)], byStart)
    ensures forall x, p :: Owned(alloc[r.start := Fragment(r, o)], x, p) <==> Owned(alloc, x, p) || (r.Has(x) && p == o)
  {
    assert Seen(0);
    var n := alloc[r.start := Fragment(r, o)];
    forall k | k in alloc ensures alloc[k].range.end <= r.start || r.end <= k {
      var x := if k < r.start then r.start else k;
      assert r.Has(x) && alloc[k].range.Has(x) ==> Taken(alloc, x);
    }
    assert r.start !in alloc;
    forall x, p ensures Owned(n, x, p) <==> Owned(alloc, x, p) || (r.Has(x) && p == o) {
      if r.Has(x) && p == o {
        assert n[r.start].range.Has(x);
      }
      if Owned(alloc, x, p) {
        var k :| k in alloc && alloc[k].range.Has(x) && alloc[k].obj == p;
        assert n[k].range.Has(x);
      }
    }
  }

  /** The free points after the front of `a` was taken and the rest put back. */
  lemma FrontTaken(m: map<int, Range>, n: map<int, Range>, a: Range, size: nat)
    requires FreeSet(m) && a.start in m && m[a.start] == a && 0 < size <= a.Size()
    requires forall x :: Covers(n, x) <==> (Covers(m, x) && !a.Has(x)) || Range(a.start + size, a.end).Has(x)
    ensures forall x :: Covers(n, x) <==> Covers(m, x) && !Range(a.start, a.start + size).Has(x)
  {
    assert Seen(0);
  }

  /** Points that were free become a fragment. */
  lemma HandedOut(alloc: map<int, Fragment>, m: map<int, Range>, n: map<int, Range>, r: Range)
    requires AllocOk(alloc, m) && FreeSet(m) && FreeSet(n) && r.Proper()
    requires forall x :: Covers(n, x) <==> Covers(m, x) && !r.Has(x)
    requires forall x :: r.Has(x) ==> Covers(m, x)
    ensures r.start !in alloc && forall o :: AllocOk(alloc[r.start := Fragment(r, o)], n)
  {
    assert Seen(0);
    AllocOkByPoints(alloc, m, n);
    ClearByPoints(n, r);
    forall x | r.Has(x) ensures !Taken(alloc, x) {
      if Taken(alloc, x) {
        var k :| k in alloc && alloc[k].range.Has(x);
        ClearByPoints(m, alloc[k].range);
      }
    }
    forall o ensures AllocOk(alloc[r.start := Fragment(r, o)], n) {
      AllocAdd(alloc, n, r, o);
    }
    AllocAdd(alloc, n, r, 0);
  }

  /** Only the last fragment that starts up to `x` can hold `x`. */
  lemma FloorHolds(alloc: map<int, Fragment>, free: map<int, Range>, x: int, e: Option<(int, Fragment)>)
    requires AllocOk(alloc, free) && Avl.AVLTree.IsFloor(alloc, x, e)
    ensures Taken(alloc, x) <==> e.Some? && e.value.1.range.Has(x)
  {
    assert Seen(0);
  }

  // ----- what the trees' comparisons see -----

  lemma FreeSeen(m: map<int, Range>, start: int)
    requires FreeSet(m) && 0 <= start <= HALF
    ensures Avl.AVLTree<Range>.SeenAs(m, ByStart(start), start)
  {
    assert Seen(0);
    StartAgrees(m, start);
  }

  lemma SizesLow(bySize: map<int, Range>, byStart: map<int, Range>)
    requires FreeOk(bySize, byStart)
    ensures LowSizes(bySize)
    ensures forall q :: q in bySize ==> bySize[q].start in byStart && byStart[bySize[q].start] == bySize[q]
  {
    assert Seen(0);
  }

  lemma FreeLow(m: map<int, Range>, k: int)
    requires FreeSet(m) && k in m
    ensures m[k].start == k && m[k].Proper() && m[k].Size() < HALF
  {
    assert Seen(0);
  }

  lemma AllocLow(alloc: map<int, Fragment>, free: map<int, Range>)
    requires AllocOk(alloc, free)
    ensures Low(alloc) && forall k :: k in alloc ==> alloc[k].range.start == k && alloc[k].range.Proper()
  {
    assert Seen(0);
  }

  lemma HighUntaken(alloc: map<int, Fragment>, free: map<int, Range>, x: int)
    requires AllocOk(alloc, free) && HALF <= x
    ensures !Taken(alloc, x)
  {
    assert Seen(0);
  }

  // ----- splitting a fragment -----

  /** The fragments after `overlap` is cut out of the one that starts at `k`. */
  function Cut(alloc: map<int, Fragment>, k: int, overlap: Range): map<int, Fragment>
    requires k in alloc
  {
    var f := alloc[k];
    var left, right := Range(f.range.start, overlap.start), Range(overlap.end, f.range.end);
    var m := alloc - {k};
    var n := if left.Size() > 0 then m[left.start := Fragment(left, f.obj)] else m;
    if right.Size() > 0 then n[right.start := Fragment(right, f.obj)] else n
  }

  /** `overlap` is a nonempty part of the fragment at `k`. */
  ghost predicate Inside(alloc: map<int, Fragment>, k: int, overlap: Range) {
    k in alloc && alloc[k].range.start <= overlap.start < overlap.end <= alloc[k].range.end
  }

  /** A cut keeps the other fragments, and what it adds lies in the old one outside the overlap. */
  lemma CutEntry(alloc: map<int, Fragment>, byStart: map<int, Range>, k: int, overlap: Range, j: int)
    requires AllocOk(alloc, byStart) && Inside(alloc, k, overlap)
    ensures alloc[k].range.start == k
    ensures j in alloc && j != k ==> j in Cut(alloc, k, overlap) && Cut(alloc, k, overlap)[j] == alloc[j]
    ensures j in Cut(alloc, k, overlap) ==> var f := Cut(alloc, k, overlap)[j];
              || (j in alloc && j != k && f == alloc[j])
              || (f.obj == alloc[k].obj && f.range == Range(alloc[k].range.start, overlap.start))
              || (f.obj == alloc[k].obj && f.range == Range(overlap.end, alloc[k].range.end))
    ensures k < overlap.start ==>
              && k in Cut(alloc, k, overlap)
              && Cut(alloc, k, overlap)[k] == Fragment(Range(alloc[k].range.start, overlap.start), alloc[k].obj)
    ensures overlap.end < alloc[k].range.end ==>
              && overlap.end in Cut(alloc, k, overlap)
              && Cut(alloc, k, overlap)[overlap.end] == Fragment(Range(overlap.end, alloc[k].range.end), alloc[k].obj)
  {
    assert Seen(0);
  }

  /** A fragment of the cut is sound by itself, and lies beside the overlap. */
  lemma CutPlace(alloc: map<int, Fragment>, byStart: map<int, Range>, k: int, overlap: Range, j: int)
    requires AllocOk(alloc, byStart) && Inside(alloc, k, overlap) && j in Cut(alloc, k, overlap)
    ensures var f := Cut(alloc, k, overlap)[j];
      && f.range.start == j && f.range.Proper() && Clear(byStart, f.range)
      && (f.range.end <= overlap.start || overlap.end <= j)
  {
    CutEntry(alloc, byStart, k, overlap, j);
    assert Seen(0);
    assert Clear(byStart, alloc[k].range);
  }

  lemma CutPair(alloc: map<int, Fragment>, byStart: map<int, Range>, k: int, overlap: Range, i: int, j: int)
    requires AllocOk(alloc, byStart) && Inside(alloc, k, overlap)
    requires i in Cut(alloc, k, overlap) && j in Cut(alloc, k, overlap) && i < j
    ensures Cut(alloc, k, overlap)[i].range.end <= j
  {
    CutEntry(alloc, byStart, k, overlap, i);
    CutEntry(alloc, byStart, k, overlap, j);
    CutPlace(alloc, byStart, k, overlap, i);
    CutPlace(alloc, byStart, k, overlap, j);
    assert Seen(0);
  }

  lemma CutOk(alloc: map<int, Fragment>, byStart: map<int, Range>, k: int, overlap: Range)
    requires AllocOk(alloc, byStart) && Inside(alloc, k, overlap)
    ensures AllocOk(Cut(alloc, k, overlap), byStart)
    ensures forall j :: j in Cut(alloc, k, overlap) ==>
              Cut(alloc, k, overlap)[j].range.end <= overlap.start || overlap.end <= j
  {
    var n := Cut(alloc, k, overlap);
    forall j | j in n
      ensures n[j].range.start == j && n[j].range.Proper() && Clear(byStart, n[j].range)
      ensures n[j].range.end <= overlap.start || overlap.end <= j
    {
      CutPlace(alloc, byStart, k, overlap, j);
    }
    forall i, j | i in n && j in n && i < j
      ensures n[i].range.end <= j
    {
      CutPair(alloc, byStart, k, overlap, i, j);
    }
  }

  lemma OverlapOk(alloc: map<int, Fragment>, byStart: map<int, Range>, k: int, overlap: Range)
    requires AllocOk(alloc, byStart) && Inside(alloc, k, overlap)
    ensures overlap.Proper() && Clear(byStart, overlap) && alloc[k].range.start == k
  {
    assert Seen(0);
    assert Clear(byStart, alloc[k].range);
  }

  lemma CutPoints(alloc: map<int, Fragment>, byStart: map<int, Range>, k: int, overlap: Range, x: int, o: nat)
    requires AllocOk(alloc, byStart) && Inside(alloc, k, overlap)
    ensures Owned(Cut(alloc, k, overlap), x, o) <==> Owned(alloc, x, o) && !overlap.Has(x)
  {
    assert Seen(0);
    var n := Cut(alloc, k, overlap);
    if Owned(alloc, x, o) && !overlap.Has(x) {
      var j :| j in alloc && alloc[j].range.Has(x) && alloc[j].obj == o;
      CutEntry(alloc, byStart, k, overlap, j);
      var i := if j != k || x < overlap.start then j else overlap.end;
      assert n[i].range.Has(x) && n[i].obj == o;
    }
    if Owned(n, x, o) {
      var j :| j in n && n[j].range.Has(x) && n[j].obj == o;
      CutEntry(alloc, byStart, k, overlap, j);
      var i := if j in alloc && j != k && n[j] == alloc[j] then j else k;
      assert alloc[i].range.Has(x) && alloc[i].obj == o;
      assert i < k || i == k || k < i;
    }
  }

  // ----- reference counts -----

  datatype Refcounted<U> = Refcounted(user: U, refcount: nat)

  function Fragments(alloc: map<int, Fragment>, o: nat): set<int> {
    set k | k in alloc && alloc[k].obj == o
  }

  ghost predicate NoRepeat(s: seq<nat>) {
    forall i, j :: 0 <= i < j < |s| ==> s[i] != s[j]
  }

  /**
    Every live object's count is the number of fragments that point at it;
    every object ever made is either live or destroyed once.
   */
  ghost predicate RefsOk<U>(alloc: map<int, Fragment>, objs: map<nat, Refcounted<U>>, destroyed: seq<nat>, made: nat) {
    forall u {:trigger Seen(u)} :: Seen(u) ==>
      && (forall o :: o in objs ==> o < made && objs[o].refcount == |Fragments(alloc, o)| > 0)
      && (forall k :: k in alloc ==> alloc[k].obj in objs)
      && (forall o :: o in destroyed ==> o < made && o !in objs)
      && (forall o: nat :: o < made ==> o in objs || o in destroyed)
      && NoRepeat(destroyed)
  }

  /** Of the objects that were there, those that are left have the same users. */
  ghost predicate UsersKept<U>(objs0: map<nat, Refcounted<U>>, objs: map<nat, Refcounted<U>>) {
    forall u {:trigger Seen(u)} :: Seen(u) ==> forall o :: o in objs ==> o in objs0 && objs[o].user == objs0[o].user
  }

  lemma UsersKeptTrans<U>(a: map<nat, Refcounted<U>>, b: map<nat, Refcounted<U>>, c: map<nat, Refcounted<U>>)
    requires UsersKept(a, b) && UsersKept(b, c)
    ensures UsersKept(a, c)
  {
    assert Seen(0);
  }

  lemma UsersSame<U>(objs: map<nat, Refcounted<U>>)
    ensures UsersKept(objs, objs)
  {}

  lemma UsersCounting<U>(objs: map<nat, Refcounted<U>>, o: nat, n: nat)
    requires o in objs
    ensures UsersKept(objs, Counting(objs, o, n))
  {}

  /** The user a point is held for, if it is held. */
  ghost function UserAt<U>(alloc: map<int, Fragment>, objs: map<nat, Refcounted<U>>, x: int): Option<U> {
    if exists o :: Owned(alloc, x, o) && o in objs then
      var o :| Owned(alloc, x, o) && o in objs;
      Some(objs[o].user)
    else None
  }

  lemma UserIs<U>(alloc: map<int, Fragment>, byStart: map<int, Range>, objs: map<nat, Refcounted<U>>, x: int, o: nat)
    requires AllocOk(alloc, byStart) && Owned(alloc, x, o) && o in objs
    ensures UserAt(alloc, objs, x) == Some(objs[o].user)
  {
    assert Seen(0);
    var k :| k in alloc && alloc[k].range.Has(x) && alloc[k].obj == o;
    forall p | Owned(alloc, x, p)
      ensures p == o
    {
      var j :| j in alloc && alloc[j].range.Has(x) && alloc[j].obj == p;
    }
  }

  lemma UserNone<U>(alloc: map<int, Fragment>, objs: map<nat, Refcounted<U>>, x: int)
    requires forall o :: !Owned(alloc, x, o)
    ensures UserAt(alloc, objs, x) == None
  {}

  /** Every point left has the user it had. */
  lemma UserOn<U>(alloc0: map<int, Fragment>, free0: map<int, Range>, objs0: map<nat, Refcounted<U>>,
                  alloc: map<int, Fragment>, free: map<int, Range>, objs: map<nat, Refcounted<U>>,
                  destroyed: seq<nat>, made: nat, r: Range, x: int)
    requires AllocOk(alloc0, free0) && AllocOk(alloc, free)
    requires UsersKept(objs0, objs) && RefsOk(alloc, objs, destroyed, made)
    requires forall o :: Owned(alloc, x, o) <==> Owned(alloc0, x, o) && !r.Has(x)
    ensures UserAt(alloc, objs, x) == if r.Has(x) then None else UserAt(alloc0, objs0, x)
  {
    if r.Has(x) || forall o :: !Owned(alloc, x, o) {
      UserNone(alloc, objs, x);
    } else {
      var o :| Owned(alloc, x, o);
      UserKept(objs0, alloc, objs, destroyed, made, x, o);
      UserIs(alloc, free, objs, x, o);
      UserIs(alloc0, free0, objs0, x, o);
    }
  }

  lemma UserKept<U>(objs0: map<nat, Refcounted<U>>, alloc: map<int, Fragment>, objs: map<nat, Refcounted<U>>,
                    destroyed: seq<nat>, made: nat, x: int, o: nat)
    requires UsersKept(objs0, objs) && RefsOk(alloc, objs, destroyed, made) && Owned(alloc, x, o)
    ensures o in objs && o in objs0 && objs[o].user == objs0[o].user
  {
    assert Seen(0);
    var k :| k in alloc && alloc[k].range.Has(x) && alloc[k].obj == o;
  }

  lemma FragmentsAdd(alloc: map<int, Fragment>, k: int, f: Fragment, o: nat)
    requires k !in alloc
    ensures |Fragments(alloc[k := f], o)| == |Fragments(alloc, o)| + if f.obj == o then 1 else 0
  {
    var n := alloc[k := f];
    assert Fragments(n, o) == Fragments(alloc, o) + if f.obj == o then {k} else {};
  }

  lemma FragmentsDrop(alloc: map<int, Fragment>, k: int, o: nat)
    requires k in alloc
    ensures |Fragments(alloc - {k}, o)| == |Fragments(alloc, o)| - if alloc[k].obj == o then 1 else 0
  {
    assert Fragments(alloc, o) == Fragments(alloc - {k}, o) + if alloc[k].obj == o then {k} else {};
  }

  /** How many fragments a cut leaves behind. */
  function Pieces(alloc: map<int, Fragment>, k: int, overlap: Range): nat
    requires k in alloc
  {
    (if Range(alloc[k].range.start, overlap.start).Size() > 0 then 1 else 0) +
    (if Range(overlap.end, alloc[k].range.end).Size() > 0 then 1 else 0)
  }

  /** The keys under which the two pieces go in are not in use. */
  lemma CutStarts(alloc: map<int, Fragment>, byStart: map<int, Range>, k: int, overlap: Range)
    requires AllocOk(alloc, byStart) && Inside(alloc, k, overlap)
    ensures alloc[k].range.start == k
    ensures overlap.end < alloc[k].range.end ==> overlap.end !in alloc && overlap.end != k
  {
    assert Seen(0);
  }

  lemma CutFragments(alloc: map<int, Fragment>, byStart: map<int, Range>, k: int, overlap: Range, o: nat)
    requires AllocOk(alloc, byStart) && Inside(alloc, k, overlap)
    ensures |Fragments(Cut(alloc, k, overlap), o)|
         == |Fragments(alloc, o)| + if alloc[k].obj == o then Pieces(alloc, k, overlap) - 1 else 0
  {
    assert Seen(0);
    var f := alloc[k];
    var left, right := Range(f.range.start, overlap.start), Range(overlap.end, f.range.end);
    var m := alloc - {k};
    FragmentsDrop(alloc, k, o);
    var n := if left.Size() > 0 then m[left.start := Fragment(left, f.obj)] else m;
    if left.Size() > 0 {
      FragmentsAdd(m, left.start, Fragment(left, f.obj), o);
    }
    if right.Size() > 0 {
      assert right.start !in n;
      FragmentsAdd(n, right.start, Fragment(right, f.obj), o);
    }
  }

  /** The live objects once `o` has `n` references: it is gone when that is none. */
  function Counting<U>(objs: map<nat, Refcounted<U>>, o: nat, n: nat): map<nat, Refcounted<U>>
    requires o in objs
  {
    if n == 0 then objs - {o} else objs[o := objs[o].(refcount := n)]
  }

  lemma CountingTwice<U>(objs: map<nat, Refcounted<U>>, o: nat, m: nat, n: nat)
    requires o in objs && m > 0
    ensures Counting(Counting(objs, o, m), o, n) == Counting(objs, o, n)
    ensures Counting(objs, o, m)[o].refcount == m
    ensures objs[o].refcount > 0 ==> Counting(objs, o, objs[o].refcount) == objs
  {}

  /** A fresh object behind one new fragment. */
  lemma RefsAllocate<U>(alloc: map<int, Fragment>, objs: map<nat, Refcounted<U>>, destroyed: seq<nat>, made: nat,
                        r: Range, u: U)
    requires RefsOk(alloc, objs, destroyed, made) && r.start !in alloc
    ensures RefsOk(alloc[r.start := Fragment(r, made)], objs[made := Refcounted(u, 1)], destroyed, made + 1)
  {
    assert Seen(0);
    var n := alloc[r.start := Fragment(r, made)];
    forall o: nat ensures |Fragments(n, o)| == |Fragments(alloc, o)| + if o == made then 1 else 0 {
      FragmentsAdd(alloc, r.start, Fragment(r, made), o);
    }
    forall k | k in alloc ensures alloc[k].obj != made {
      assert alloc[k].obj in objs;
    }
    assert Fragments(alloc, made) == {};
  }

  /** The same objects with one count changed, or gone with its last fragment. */
  lemma RefsRecount<U>(alloc: map<int, Fragment>, objs: map<nat, Refcounted<U>>, destroyed: seq<nat>, made: nat,
                       cut: map<int, Fragment>, o: nat, n: nat)
    requires RefsOk(alloc, objs, destroyed, made) && o in objs
    requires forall j :: j in cut ==> cut[j].obj in objs
    requires forall p: nat :: |Fragments(cut, p)| == if p == o then n else |Fragments(alloc, p)|
    ensures RefsOk(cut, Counting(objs, o, n), destroyed + (if n == 0 then [o] else []), made)
  {
    assert Seen(0);
    if n == 0 {
      assert Fragments(cut, o) == {};
      forall j | j in cut ensures cut[j].obj in objs - {o} {
        assert cut[j].obj == o ==> j in Fragments(cut, o);
      }
    } else {
      assert destroyed + [] == destroyed;
    }
  }

  lemma RefsAt<U>(alloc: map<int, Fragment>, objs: map<nat, Refcounted<U>>, destroyed: seq<nat>, made: nat, k: int)
    requires RefsOk(alloc, objs, destroyed, made) && k in alloc
    ensures alloc[k].obj in objs && objs[alloc[k].obj].refcount == |Fragments(alloc, alloc[k].obj)| > 0
  {
    assert Seen(0);
  }

  /** After a cut, with the new references taken before the old one is dropped. */
  lemma RefsCut<U>(alloc: map<int, Fragment>, byStart: map<int, Range>, objs: map<nat, Refcounted<U>>,
                   destroyed: seq<nat>, made: nat, k: int, overlap: Range)
    requires AllocOk(alloc, byStart) && Inside(alloc, k, overlap) && RefsOk(alloc, objs, destroyed, made)
    ensures alloc[k].obj in objs && objs[alloc[k].obj].refcount + Pieces(alloc, k, overlap) >= 1
    ensures var o := alloc[k].obj; var n := objs[o].refcount + Pieces(alloc, k, overlap) - 1;
            RefsOk(Cut(alloc, k, overlap), Counting(objs, o, n), destroyed + (if n == 0 then [o] else []), made)
  {
    RefsAt(alloc, objs, destroyed, made, k);
    var o, cut := alloc[k].obj, Cut(alloc, k, overlap);
    forall p: nat
      ensures |Fragments(cut, p)| == |Fragments(alloc, p)| + if p == o then Pieces(alloc, k, overlap) - 1 else 0
    {
      CutFragments(alloc, byStart, k, overlap, p);
    }
    forall j | j in cut ensures cut[j].obj in objs {
      CutEntry(alloc, byStart, k, overlap, j);
      if j in alloc && cut[j] == alloc[j] {
        RefsAt(alloc, objs, destroyed, made, j);
      }
    }
    RefsRecount(alloc, objs, destroyed, made, cut, o, objs[o].refcount + Pieces(alloc, k, overlap) - 1);
  }

  // ----- freeing a stretch of points -----

  /** The fragments lost the points from `lo` to `hi`, and the free set gained those that had been allocated. */
  ghost predicate Freed(alloc0: map<int, Fragment>, free0: map<int, Range>, alloc: map<int, Fragment>,
                        free: map<int, Range>, lo: int, hi: int) {
    forall u {:trigger Seen(u)} :: Seen(u) ==>
      && (forall x, o :: Owned(alloc, x, o) <==> Owned(alloc0, x, o) && !(lo <= x < hi))
      && (forall x :: Covers(free, x) <==> Covers(free0, x) || (Taken(alloc0, x) && lo <= x < hi))
  }

  lemma TakenOwned(alloc: map<int, Fragment>, x: int)
    ensures Taken(alloc, x) <==> exists o :: Owned(alloc, x, o)
  {
    if Taken(alloc, x) {
      var k :| k in alloc && alloc[k].range.Has(x);
      assert Owned(alloc, x, alloc[k].obj);
    }
  }

  lemma FreedNothing(alloc: map<int, Fragment>, free: map<int, Range>, lo: int)
    ensures Freed(alloc, free, alloc, free, lo, lo)
  {
    assert Seen(0);
  }

  ghost predicate Untaken(alloc: map<int, Fragment>, lo: int, hi: int) {
    var untaken := forall x :: lo <= x < hi ==> !Taken(alloc, x);
    untaken
  }

  /** Moving on over points that nobody owns. */
  lemma FreedSkip(alloc0: map<int, Fragment>, free0: map<int, Range>, alloc: map<int, Fragment>,
                  free: map<int, Range>, lo: int, mid: int, hi: int)
    requires Freed(alloc0, free0, alloc, free, lo, mid) && lo <= mid <= hi
    requires Untaken(alloc, mid, hi)
    ensures Freed(alloc0, free0, alloc, free, lo, hi)
  {
    assert Seen(0);
    forall x ensures mid <= x < hi ==> !Taken(alloc0, x) {
      TakenOwned(alloc, x);
      TakenOwned(alloc0, x);
    }
    forall x, o ensures Owned(alloc0, x, o) ==> Taken(alloc0, x) {
    }
  }

  /** Cutting the next stretch out of a fragment and freeing it. */
  lemma FreedCut(alloc0: map<int, Fragment>, free0: map<int, Range>, alloc: map<int, Fragment>, free: map<int, Range>,
                 lo: int, k: int, overlap: Range, free': map<int, Range>)
    requires Freed(alloc0, free0, alloc, free, lo, overlap.start) && lo <= overlap.start
    requires AllocOk(alloc, free) && Inside(alloc, k, overlap)
    requires forall x :: Covers(free', x) <==> Covers(free, x) || overlap.Has(x)
    ensures Freed(alloc0, free0, Cut(alloc, k, overlap), free', lo, overlap.end)
  {
    assert Seen(0);
    forall x, o ensures Owned(Cut(alloc, k, overlap), x, o) <==> Owned(alloc, x, o) && !overlap.Has(x) {
      CutPoints(alloc, free, k, overlap, x, o);
    }
    forall x | overlap.Has(x) ensures Taken(alloc0, x) {
      assert Owned(alloc, x, alloc[k].obj);
      TakenOwned(alloc0, x);
    }
  }

  /** The end of the points to free. */
  function EndOf(r: Range): nat {
    if r.end < r.start then r.start else r.end
  }

  /** A point that is not allocated when the walk gets there was not allocated to begin with. */
  lemma RedundantFree(alloc0: map<int, Fragment>, free0: map<int, Range>, alloc: map<int, Fragment>,
                      free: map<int, Range>, lo: int, x: int)
    requires Freed(alloc0, free0, alloc, free, lo, x) && !Taken(alloc, x)
    ensures !Taken(alloc0, x)
  {
    assert Seen(0);
    TakenOwned(alloc, x);
    TakenOwned(alloc0, x);
  }

  /** From a point nobody owns, the next fragment ahead is the first one to own anything. */
  lemma GapAhead(alloc: map<int, Fragment>, free: map<int, Range>, x: int, next: Option<(int, Fragment)>, hi: int)
    requires AllocOk(alloc, free) && !Taken(alloc, x) && Avl.AVLTree.IsCeiling(alloc, x, next)
    requires next.Some? ==> hi <= next.value.0
    ensures next.Some? ==> x < next.value.0 && next.value.1.range.start == next.value.0
    ensures Untaken(alloc, x, hi)
  {
    assert Seen(0);
  }

  /** The points cut out may be freed. */
  lemma CutClear(alloc: map<int, Fragment>, m: map<int, Range>, n: map<int, Range>, overlap: Range)
    requires AllocOk(alloc, m) && FreeSet(m) && FreeSet(n)
    requires forall j :: j in alloc ==> alloc[j].range.end <= overlap.start || overlap.end <= j
    requires forall x :: Covers(n, x) <==> Covers(m, x) || overlap.Has(x)
    ensures AllocOk(alloc, n)
  {
    assert Seen(0);
    AllocOkByPoints(alloc, m, n);
  }

  // ----- conservation -----

  /** A point the allocator manages, free or allocated. */
  ghost predicate Managed(alloc: map<int, Fragment>, free: map<int, Range>, x: int) {
    Taken(alloc, x) || Covers(free, x)
  }

  lemma FreedConserves(alloc0: map<int, Fragment>, free0: map<int, Range>, alloc: map<int, Fragment>,
                       free: map<int, Range>, lo: int, hi: int, x: int)
    requires Freed(alloc0, free0, alloc, free, lo, hi)
    ensures Managed(alloc, free, x) <==> Managed(alloc0, free0, x)
  {
    assert Seen(0);
    TakenOwned(alloc0, x);
    TakenOwned(alloc, x);
  }

  /** What freeing has done when it is over. */
  lemma FreedAll(alloc0: map<int, Fragment>, free0: map<int, Range>, alloc: map<int, Fragment>, free: map<int, Range>,
                 r: Range)
    requires Freed(alloc0, free0, alloc, free, r.start, EndOf(r))
    ensures forall x, o :: Owned(alloc, x, o) <==> Owned(alloc0, x, o) && !r.Has(x)
    ensures forall x :: Covers(free, x) <==> Covers(free0, x) || (Taken(alloc0, x) && r.Has(x))
    ensures forall x :: Managed(alloc, free, x) <==> Managed(alloc0, free0, x)
  {
    assert Seen(0);
    forall x ensures Managed(alloc, free, x) <==> Managed(alloc0, free0, x) {
      FreedConserves(alloc0, free0, alloc, free, r.start, EndOf(r), x);
    }
  }

  /** Freeing from a fragment behind the input takes points that were not asked for. */
  lemma FreedBehind(alloc0: map<int, Fragment>, free0: map<int, Range>, alloc: map<int, Fragment>, input: Range,
                    from: nat)
    requires AllocOk(alloc0, free0) && from in alloc0 && from < input.start <= input.end
    requires forall x, o :: Owned(alloc, x, o) <==> Owned(alloc0, x, o) && !Range(from, input.end).Has(x)
    ensures !forall x, o :: Owned(alloc, x, o) <==> Owned(alloc0, x, o) && !input.Has(x)
  {
    assert Seen(0);
    var o := alloc0[from].obj;
    assert alloc0[from].range.Has(from);
    assert Owned(alloc0, from, o) && !Owned(alloc, from, o) && !input.Has(from);
  }

  lemma HandOutConserves(alloc: map<int, Fragment>, m: map<int, Range>, n: map<int, Range>, r: Range, o: nat, x: int)
    requires r.start !in alloc
    requires forall y :: r.Has(y) ==> Covers(m, y)
    requires forall y :: Covers(n, y) <==> Covers(m, y) && !r.Has(y)
    ensures Managed(alloc[r.start := Fragment(r, o)], n, x) <==> Managed(alloc, m, x)
  {
    var alloc' := alloc[r.start := Fragment(r, o)];
    if r.Has(x) {
      assert alloc'[r.start].range.Has(x);
    }
    if Taken(alloc, x) {
      var k :| k in alloc && alloc[k].range.Has(x);
      assert alloc'[k].range.Has(x);
    }
  }
}
