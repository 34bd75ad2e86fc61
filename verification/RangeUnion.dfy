/** `RangeUnion`: a growing set of points kept as sorted, separated ranges. */
module RangeUnions {
  import opened Ranges
  import opened Options
  import opened Avl
  import opened RangeTrees
  import opened Words

  class RangeUnion {
    const tree: AVLTree<Range>

    ghost predicate Valid()
      reads this, tree
    {
      tree.Valid() && Spaced(tree.Contents())
    }

    constructor ()
      ensures Valid() && fresh(tree) && tree.Contents() == map[]
    {
      tree := new AVLTree();
    }

    /**
      Adds the points of `input`. Every range that touches or overlaps the
      growing `range` is taken out of the tree and merged into it.
     */
    method Accumulate(input: Range)
      requires Valid() && input.Ordered()
      modifies tree
      ensures Valid()
      ensures forall x :: Covers(tree.Contents(), x) <==> Covers(old(tree.Contents()), x) || input.Has(x)
      ensures input.Size() > 0 && old(Nonempty(tree.Contents())) ==> Nonempty(tree.Contents())
    {
      var range := input;
      while true
        invariant Pending(tree.Contents(), range, old(tree.Contents()), input) && tree.Valid()
        decreases |tree.Contents()|
      {
        ghost var m := tree.Contents();
        StartAgrees(m, range.start);
        var left := tree.FirstLessThanOrEqualToBy(ByStart(range.start));
        if left.Some? && left.value.1.end >= range.start {
          Merged(m, left.value.0, range, left.value.1.start, old(tree.Contents()), input);
          var _ := tree.Remove(left.value.0);
          range := Range(left.value.1.start, Larger(left.value.1.end, range.end));
          continue;
        }
        var right := tree.FirstGreaterThanOrEqualToBy(ByStart(range.start));
        if right.Some? && right.value.1.start <= range.end {
          Merged(m, right.value.0, range, range.start, old(tree.Contents()), input);
          var _ := tree.Remove(right.value.0);
          range := Range(range.start, Larger(right.value.1.end, range.end));
          continue;
        }
        Finished(m, range, left, right, old(tree.Contents()), input);
        tree.InsertNew(range.start, range);
        break;
      }
    }

    /** The lowest range. */
    method FirstRange() returns (r: Option<Range>)
      requires Valid()
      ensures r.None? <==> tree.Contents() == map[]
      ensures r.Some? ==> r.value.start in tree.Contents() && tree.Contents()[r.value.start] == r.value
      ensures r.Some? ==> forall k :: k in tree.Contents() ==> r.value.start <= k
    {
      var e := tree.FindMin();
      assert e.Some? ==> e.value.1.start == e.value.0;
      r := if e.None? then None else Some(e.value.1);
    }

    /** A start beyond 2^31 with a tree whose root is so far below that it is taken for one above. */
    ghost predicate Misreads(start: nat)
      reads tree
    {
      HALF < start && tree.shape.Node? && tree.shape.item.key < start - HALF
    }

    /** The range after `prev`, in order of starts; one that lies before it exactly when the start is misread. */
    method NextRange(prev: Range) returns (r: Option<Range>)
      requires Valid() && prev.start < WORD
      ensures IsAfter(tree.Contents(), prev, r) <==> !Misreads(prev.start)
      ensures Misreads(prev.start) ==>
        && r.Some? && r.value.start in tree.Contents() && tree.Contents()[r.value.start] == r.value
        && r.value.start < prev.start - HALF
    {
      var e := tree.FirstGreaterThanBy(ByStart(prev.start));
      assert e.Some? ==> e.value.1.start == e.value.0;
      r := if e.None? then None else Some(e.value.1);
      if prev.start <= HALF {
        StartAgrees(tree.Contents(), prev.start);
      } else {
        StartBackwards(tree.Contents(), prev.start);
        tree.RootEntry();
      }
    }

    /** Iterating from the first range by `NextRange` lists every range once, in order. */
    method List() returns (out: seq<Range>)
      requires Valid()
      ensures Lists(tree.Contents(), out, tree.Contents().Keys)
    {
      out := [];
      ghost var m := tree.Contents();
      ghost var seen: set<int> := {};
      var r := FirstRange();
      while r.Some?
        invariant Lists(m, out, seen) && seen <= m.Keys
        invariant Ahead(m, seen, r)
        decreases m.Keys - seen
      {
        var p := r.value;
        Listed(m, out, seen, p);
        out := out + [p];
        seen := seen + {p.start};
        r := NextRange(p);
        Onward(m, seen, p, r);
      }
    }
  }

  /** `out` is the ranges that start in `seen`, in increasing order and with gaps. */
  ghost predicate Lists(m: map<int, Range>, out: seq<Range>, seen: set<int>) {
    var lists :=
      && (forall i :: 0 <= i < |out| ==> out[i].start in m && m[out[i].start] == out[i] && out[i].start in seen)
      && (forall k :: k in seen ==> k in m && m[k] in out)
      && (forall i, j :: 0 <= i < j < |out| ==> out[i].end < out[j].start);
    lists
  }

  /** `r` is the lowest range not yet seen, and everything seen is below it. */
  ghost predicate Ahead(m: map<int, Range>, seen: set<int>, r: Option<Range>) {
    var ahead :=
      match r
      case None => forall k :: k in m ==> k in seen
      case Some(p) =>
        && p.start in m && m[p.start] == p
        && forall k :: k in m ==> if k in seen then k < p.start else p.start <= k;
    ahead
  }

  /** `r` is the entry with the least start above that of `prev`; none when there is no such entry. */
  ghost predicate IsAfter(m: map<int, Range>, prev: Range, r: Option<Range>) {
    match r
    case None => forall k :: k in m ==> k <= prev.start
    case Some(p) =>
      && p.start in m && m[p.start] == p && prev.start < p.start
      && forall k :: k in m && prev.start < k ==> p.start <= k
  }

  lemma Onward(m: map<int, Range>, seen: set<int>, p: Range, r: Option<Range>)
    requires IsAfter(m, p, r) && forall k :: k in m ==> (k in seen <==> k <= p.start)
    ensures Ahead(m, seen, r)
  {}

  lemma Listed(m: map<int, Range>, out: seq<Range>, seen: set<int>, p: Range)
    requires Spaced(m) && Lists(m, out, seen) && Ahead(m, seen, Some(p))
    ensures Lists(m, out + [p], seen + {p.start})
    ensures p.start !in seen && p.start in m
    ensures forall k :: k in m ==> (k in seen + {p.start} <==> k <= p.start)
  {}

  function Larger(a: nat, b: nat): nat { if a > b then a else b }

  /** While accumulating: the tree and the pending range cover what the old tree and the input did. */
  ghost predicate Pending(m: map<int, Range>, r: Range, n: map<int, Range>, s: Range) {
    var pending :=
      && Spaced(m) && r.Ordered()
      && (s.Size() > 0 && Nonempty(n) ==> Nonempty(m) && r.Size() > 0)
      && forall x :: Covers(m, x) || r.Has(x) <==> Covers(n, x) || s.Has(x);
    pending
  }

  /** When neither neighbour touches, no entry does, and the pending range can be put in. */
  lemma Finished(m: map<int, Range>, range: Range, left: Option<(int, Range)>, right: Option<(int, Range)>,
                 n: map<int, Range>, s: Range)
    requires Pending(m, range, n, s)
    requires AVLTree.IsFloor(m, range.start, left) && AVLTree.IsCeiling(m, range.start, right)
    requires left.Some? ==> left.value.1.end < range.start
    requires right.Some? ==> range.end < right.value.1.start
    ensures range.start !in m && Spaced(m[range.start := range])
    ensures forall x :: Covers(m[range.start := range], x) <==> Covers(n, x) || s.Has(x)
    ensures s.Size() > 0 && Nonempty(n) ==> Nonempty(m[range.start := range])
  {
    assert forall k :: k in m ==> range.end < k || m[k].end < range.start;
    SpacedAdd(m, range);
  }

  /** Taking out the entry at `k` and widening the pending range over it loses and gains no point. */
  lemma Merged(m: map<int, Range>, k: int, range: Range, start: nat, n: map<int, Range>, s: Range)
    requires Pending(m, range, n, s) && k in m
    requires m[k].end >= range.start && k <= range.end
    requires start == if k < range.start then k else range.start
    ensures Pending(m - {k}, Range(start, Larger(m[k].end, range.end)), n, s)
    ensures |m - {k}| < |m|
  {
    SpacedDrop(m, k);
    var wide := Range(start, Larger(m[k].end, range.end));
    assert m.Keys == (m - {k}).Keys + {k};
    forall x ensures Covers(m - {k}, x) || wide.Has(x) <==> Covers(m, x) || range.Has(x) {
      assert m[k].Has(x) ==> Covers(m, x);
      assert wide.Has(x) <==> m[k].Has(x) || range.Has(x);
    }
  }
}
