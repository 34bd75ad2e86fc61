/**
  Half-open ranges, the two key orders of CoalescingAllocator.h, and sets of
  ranges seen as the points they cover.
 */
module Ranges {

  import opened Words

  const HALF := 0x8000_0000

  /** The points from `start` up to but not including `end`. */
  datatype Range = Range(start: nat, end: nat) {
    function Size(): nat {
      if end < start then 0 else end - start
    }

    function Intersect(other: Range): Range {
      Range(if start > other.start then start else other.start, if end < other.end then end else other.end)
    }

    predicate Has(x: int) {
      start <= x < end
    }

    /** Not inverted, with both ends below 2^31. */
    predicate Ordered() {
      start <= end < HALF
    }

    /** `Ordered` and nonempty. */
    predicate Proper() {
      start < end < HALF
    }
  }

  /** The overlap has exactly the common points; it may be an inverted pair when there are none. */
  lemma IntersectPoints(a: Range, b: Range, x: int)
    ensures a.Intersect(b).Has(x) <==> a.Has(x) && b.Has(x)
    ensures a.Intersect(b).Size() == 0 && a.Has(x) ==> !b.Has(x)
  {}

  /** The size is the number of points. */
  lemma {:induction false} SizeCounts(r: Range)
    ensures r.Size() == |Points(r)|
    decreases r.end
  {
    if r.start < r.end {
      var shorter := Range(r.start, r.end - 1);
      SizeCounts(shorter);
      assert Points(r) == Points(shorter) + {r.end - 1};
    } else {
      assert Points(r) == {};
    }
  }

  ghost function Points(r: Range): set<int> {
    set x: int | r.start <= x < r.end && r.Has(x)
  }

  // ----- keys -----

  /** The keys the trees are ordered by; ties in size are resolved by the start. */
  function StartKey(r: Range): int { r.start }

  function SizeKey(r: Range): int { r.Size() * WORD + r.start }

  /** A 32-bit subtraction read as a signed `int`, as `cmp` computes it. */
  function Diff32(a: int, b: int): int {
    (a - b + HALF) % WORD - HALF
  }

  function CmpByStart(a: Range, b: Range): int {
    Diff32(a.start, b.start)
  }

  function CmpBySize(a: Range, b: Range): int {
    if Diff32(a.Size(), b.Size()) != 0 then Diff32(a.Size(), b.Size()) else Diff32(a.start, b.start)
  }

  /** The signed difference orders two 32-bit words correctly exactly when they are less than half the word apart. */
  lemma Diff32Exact(a: int, b: int)
    requires 0 <= a < WORD && 0 <= b < WORD
    ensures ((Diff32(a, b) < 0 <==> a < b) && (Diff32(a, b) == 0 <==> a == b)) <==> -HALF <= a - b < HALF
  {}

  /** Below 2^31 the source's comparisons are the integer order of the keys. */
  lemma KeysAgree(a: Range, b: Range)
    requires a.start < HALF && a.end < HALF && b.start < HALF && b.end < HALF
    ensures CmpByStart(a, b) < 0 <==> StartKey(a) < StartKey(b)
    ensures CmpByStart(a, b) == 0 <==> StartKey(a) == StartKey(b)
    ensures CmpBySize(a, b) < 0 <==> SizeKey(a) < SizeKey(b)
    ensures CmpBySize(a, b) == 0 <==> SizeKey(a) == SizeKey(b)
  {
    Diff32Exact(a.start, b.start);
    Diff32Exact(a.Size(), b.Size());
    SizeFirst(a.Size(), a.start, b.Size(), b.start);
  }

  lemma SizeFirst(m: int, x: int, n: int, y: int)
    requires 0 <= x < WORD && 0 <= y < WORD
    ensures m * WORD + x < n * WORD + y <==> m < n || (m == n && x < y)
    ensures m * WORD + x == n * WORD + y <==> m == n && x == y
  {}

  // ----- sets of ranges, indexed by their start -----

  ghost predicate Covers(m: map<int, Range>, x: int) {
    exists k :: k in m && m[k].Has(x)
  }

  /** Every entry is a range under its own start, and there is a gap between any two. */
  ghost predicate Spaced(m: map<int, Range>) {
    && (forall k :: k in m ==> m[k].start == k && m[k].Ordered())
    && (forall j, k :: j in m && k in m && j < k ==> m[j].end < k)
  }

  ghost predicate Nonempty(m: map<int, Range>) {
    forall k :: k in m ==> m[k].Size() > 0
  }

  /** A spaced set of nonempty ranges is determined by the points it covers. */
  lemma SpacedUnique(m: map<int, Range>, n: map<int, Range>)
    requires Spaced(m) && Spaced(n) && Nonempty(m) && Nonempty(n)
    requires forall x :: Covers(m, x) <==> Covers(n, x)
    ensures m == n
  {
    forall k | k in m ensures k in n && n[k] == m[k] {
      SpacedEntry(m, n, k);
    }
    forall k | k in n ensures k in m {
      SpacedEntry(n, m, k);
    }
  }

  lemma SpacedEntry(m: map<int, Range>, n: map<int, Range>, k: int)
    requires Spaced(m) && Spaced(n) && Nonempty(m) && Nonempty(n) && k in m
    requires forall x :: Covers(m, x) <==> Covers(n, x)
    ensures k in n && n[k] == m[k]
  {
    assert m[k].Has(k);
    assert Covers(n, k);
    var j :| j in n && n[j].Has(k);
    EdgesOfEntry(m, k);
    assert !n[j].Has(k - 1);
    EdgesOfEntry(n, k);
    assert !m[k].Has(n[k].end) && !n[k].Has(m[k].end);
  }

  /** The two points next to a spaced range are not covered. */
  lemma EdgesOfEntry(m: map<int, Range>, k: int)
    requires Spaced(m) && k in m
    ensures !Covers(m, m[k].end) && !Covers(m, k - 1)
  {}

  /** Adding a range that keeps its distance. */
  lemma SpacedAdd(m: map<int, Range>, r: Range)
    requires Spaced(m) && r.Ordered()
    requires forall k :: k in m ==> r.end < k || m[k].end < r.start
    ensures Spaced(m[r.start := r])
    ensures forall x :: Covers(m[r.start := r], x) <==> Covers(m, x) || r.Has(x)
  {
    var n := m[r.start := r];
    assert r.start !in m;
    forall x ensures Covers(n, x) <==> Covers(m, x) || r.Has(x) {
      if r.Has(x) {
        assert n[r.start].Has(x);
      }
      if Covers(m, x) {
        var k :| k in m && m[k].Has(x);
        assert n[k].Has(x);
      }
    }
  }

  lemma SpacedDrop(m: map<int, Range>, k: int)
    requires Spaced(m) && k in m
    ensures Spaced(m - {k})
    ensures forall x :: Covers(m - {k}, x) <==> Covers(m, x) && !m[k].Has(x)
  {
    var n := m - {k};
    forall x ensures Covers(n, x) <==> Covers(m, x) && !m[k].Has(x) {
      if Covers(n, x) {
        var j :| j in n && n[j].Has(x);
        assert m[j].Has(x) && (j < k || k < j);
      }
      if Covers(m, x) && !m[k].Has(x) {
        var j :| j in m && m[j].Has(x);
        assert n[j].Has(x);
      }
    }
  }
}
